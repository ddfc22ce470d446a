# Blog list statistics — a Dafny model

This project models the statistics helpers of the blog API, `blog/src/app/utils/list_helper.js`.
They take a list of blog records, each with an `author` and a number of `likes`:

- `dummy` always returns 1.
- `totalLikes` sums the likes with a `reduce` seeded with 0.
- `favoriteBlog` uses an unseeded `reduce` that keeps the current favourite unless a later record has strictly more likes.
- `mostBlogs` and `mostLikes` first run a `forEach` loop that fills a dictionary (a plain JavaScript object) in place.
  The dictionary maps each author to a count of blogs or a sum of likes.
  They then run an unseeded `reduce` over `Object.keys` of that dictionary.
  Its callback keeps the earlier key only when that key's total is strictly greater than the later key's.

Two modules:

- `ObjectKeys` (`object_keys.dfy`) gives the order in which `Object.keys` lists an ordinary object's keys.
  That order comes from the OrdinaryOwnPropertyKeys algorithm of ECMA-262 (section 10.1.11.1 in the 2023 edition).
  Array-index keys come first, in ascending numeric order.
  An array index is the canonical decimal numeral of an integer from 0 to 2^32 − 2.
  All other keys follow in insertion order.
- `ListHelper` (`list_helper.dfy`) holds the records, the four statistics and their properties.
  - The three folds become recursive functions shaped like `reduce`: `FoldLikes`, `FavoriteFrom` and `PickFrom`.
  - The grouping `forEach` loop becomes the method `GroupByAuthor`.
    It updates a `map<string, int>` and the sequence of its keys in insertion order, which is the state a JavaScript object keeps.
    Its loop invariant ties both to the specification functions `Totals` and `Authors`.
    Lemmas then show that `Totals` maps each author to `AuthorTotal`, that author's count or like sum.
  - `MostBlogs` and `MostLikes` are methods that call the loop and then the key fold.

Each fold has an independent reference definition:
- `Sum` for the seeded sum;
- `IsFirstMax` for the favourite;
- `IsLastMax` and `IsTopAuthor` for the author choice.

Lemmas connect each fold to its reference definition for all inputs.

Errors: a `reduce` without a seed throws a `TypeError` on an empty array.
`FavoriteBlog`, `MostBlogs` and `MostLikes` therefore return `Result`, and the error case `Err(EmptyInput)` occurs exactly when the list is empty.
None of the four statistics has a precondition.

Two points of the code's behaviour matter for the contracts:
- On equal totals, the key fold of `mostBlogs` and `mostLikes` keeps the later key, because its comparison is strict.
  So the winner is the LAST author in `Object.keys` order among those tied at the maximum.
  That is the reverse of `favoriteBlog`, which keeps the earliest record.
- The code never checks the sign of `likes`, so `likes` is any integer.
  Only `SumBoundsLikes` and `TotalLikesBounds` assume non-negative likes.

## Model

| member | source | states |
|---|---|---|
| `ListHelper.Dummy` | blog/src/app/utils/list_helper.js:1-3 | returns 1 for every list |
| `ListHelper.FoldLikesIsSum` | blog/src/app/utils/list_helper.js:6 | the fold that adds each record's likes to the accumulator, started from any accumulator, adds the sum of every record's likes to the accumulator |
| `ListHelper.TotalLikes` | blog/src/app/utils/list_helper.js:5-7 | equals the sum of the likes of every record; 0 for the empty list; for a single record, that record's likes; never fails |
| `ListHelper.TotalLikesBounds` | blog/src/app/utils/list_helper.js:5-7 | when no record has negative likes, the total is non-negative and at least the likes of every record |
| `ListHelper.FavoriteFrom` | blog/src/app/utils/list_helper.js:10 | the fold's result is the seed or one of the later records; its likes are at least the seed's and at least every later record's |
| `ListHelper.FavoriteBlog` | blog/src/app/utils/list_helper.js:9-11 | fails exactly on the empty list; otherwise returns a record of the list whose likes are at least every record's likes |
| `ListHelper.FavoriteBlogIsFirstMax` | blog/src/app/utils/list_helper.js:10 | ties go to the earliest record: the result is the record at the unique index with maximal likes and strictly greater likes than every earlier record |
| `ListHelper.SingleFavorite` | blog/src/app/utils/list_helper.js:9-11 | a one-record list yields that record |
| `ListHelper.FirstIndex` | blog/src/app/utils/list_helper.js:16-17 | gives the index of an author's first record, or the list length when there is none |
| `ListHelper.Authors` | blog/src/app/utils/list_helper.js:16-18 | the dictionary's keys: no author twice, and exactly the authors that occur in the input |
| `ListHelper.AuthorsInFirstOccurrenceOrder` | blog/src/app/utils/list_helper.js:16-17 | keys are inserted in the order of each author's first record |
| `ListHelper.AuthorTotalAbsent` | blog/src/app/utils/list_helper.js:17 | an author without records has total 0 |
| `ListHelper.BlogCountPositive` | blog/src/app/utils/list_helper.js:17 | an author's blog count is non-negative, and positive exactly when the author occurs |
| `ListHelper.TotalsAreAuthorTotals` | blog/src/app/utils/list_helper.js:16-18 | the dictionary built from a list of records has exactly the authors that occur as keys, and maps each to that author's count (or like sum) |
| `ListHelper.TotalsHasAuthor` | blog/src/app/utils/list_helper.js:17 | an author is a key of the dictionary exactly when one of its records has been seen |
| `ListHelper.GroupStep` | blog/src/app/utils/list_helper.js:17 | applied to a dictionary and key order that hold the records seen so far, one loop step (new key set to the record's weight, or weight added to the existing entry) yields the dictionary and key order of one record more |
| `ListHelper.GroupByAuthor` | blog/src/app/utils/list_helper.js:16-18 | after the loop (the same loop at lines 28-30 with likes for counts), the key order is the authors in first-occurrence order and the dictionary is the per-author totals of the whole list |
| `ListHelper.BlogCountsAddUp` | blog/src/app/utils/list_helper.js:14-18 | the per-author blog counts add up to the number of records |
| `ListHelper.LikeTotalsAddUp` | blog/src/app/utils/list_helper.js:26-30 | the per-author like sums add up to `totalLikes` of the same list |
| `ListHelper.PickFrom` | blog/src/app/utils/list_helper.js:20 | the key fold returns the seed or a later key, whose total is at least the seed's and every later key's |
| `ListHelper.Pick` | blog/src/app/utils/list_helper.js:20 | over a non-empty key list, returns one of the keys with a total at least every key's total |
| `ListHelper.PickIsLastMax` | blog/src/app/utils/list_helper.js:20 | ties go to the latest key: the pick is at an index whose total is maximal and strictly above every later key's |
| `ListHelper.PickIsLastMaxAuthor` | blog/src/app/utils/list_helper.js:20 | over the grouping dictionary, the picked author has the largest total of all keys, and every key listed after it has a strictly smaller total |
| `ListHelper.TopAuthorUnique` | blog/src/app/utils/list_helper.js:20 | the tie-break rule determines a single author |
| `ListHelper.KeyOrderWithoutIndices` | blog/src/app/utils/list_helper.js:20 | when no author name is an array index, `Object.keys` lists the authors in first-occurrence order |
| `ListHelper.TopAuthorIsLastFirstSeen` | blog/src/app/utils/list_helper.js:32 | every author whose name is not an array index and whose first record comes after the winner's has a strictly smaller total, so among tied authors with such names the winner is the one whose first record comes last |
| `ListHelper.TopIndexAuthor` | blog/src/app/utils/list_helper.js:20 | when the winner's name is an array index, every author with a name that is not an array index, and every array-index author with a larger numeric value, has a strictly smaller total |
| `ListHelper.AuthorsOrderAt` | blog/src/app/utils/list_helper.js:16-17 | of two keys, the one whose author's first record comes earlier is inserted earlier |
| `ListHelper.MostBlogs` | blog/src/app/utils/list_helper.js:13-23 | fails exactly on the empty list; otherwise returns an author who occurs, with that author's blog count, no author has more blogs, ties go to the last tied author in key order, and a single record gives `{author, blogs: 1}` |
| `ListHelper.MostLikes` | blog/src/app/utils/list_helper.js:25-35 | fails exactly on the empty list; otherwise returns an author who occurs, with that author's like sum, no author has a larger sum, ties go to the last tied author in key order, and a single record gives its author and likes |
| `ObjectKeys.SortIndices` | blog/src/app/utils/list_helper.js:20 | array-index keys are rearranged into ascending numeric order without losing, adding or duplicating a key |
| `ObjectKeys.OwnKeys` | blog/src/app/utils/list_helper.js:20 | `Object.keys` lists exactly the inserted keys, without duplicates; array-index keys come first in ascending order; with no array-index keys it is the insertion order |
| `ObjectKeys.FilterInOrder` | blog/src/app/utils/list_helper.js:20 | picking out the keys of one kind keeps their relative insertion order |
| `ObjectKeys.OwnKeysKeepInsertionOrder` | blog/src/app/utils/list_helper.js:20 | every key listed after a key that is not an array index is not one either, and was inserted later |
| `ObjectKeys.OwnKeysOrderAt` | blog/src/app/utils/list_helper.js:20 | of two listed keys, a later-inserted one that is not an array index is listed later |

## Left out

- JavaScript number semantics are not modelled: floating-point likes, `NaN`, and overflow to `Infinity`. `likes` is an unbounded integer.
- A missing `likes` field is not modelled.
  In `totalLikes`, and when a later record of an author lacks it in `mostLikes`, JavaScript's sum becomes `NaN`.
  In `mostLikes`, an author's first record without it stores `undefined`; the next record of that author then finds `undefined` and restarts the entry with its own likes, and an author with no later record ends with `likes: undefined`.
- A non-numeric `likes` is not modelled. In JavaScript the addition then becomes string concatenation.
- Author names that are properties inherited from `Object.prototype` are not modelled (`constructor`, `toString`, `hasOwnProperty`, `__proto__`, …).
  For these names, the code's test for a missing entry finds an inherited value on first sight, so the code adds to that value or, for `__proto__`, never creates an own key.
  The model treats the dictionary as having no inherited entries.
- Non-string authors are not modelled. JavaScript coerces them to property keys, so for example `undefined` becomes `"undefined"`. `author` is a string here.
- Fields of a blog record other than `author` and `likes` are not modelled; they are irrelevant to the statistics.
- `FavoriteBlog` returns the record by value. JavaScript returns the same object reference, and object identity is not modelled.
- The routes (`blog/src/app/controllers/blogs.js`, `blog/src/app/controllers/users.js`) are not part of this model.
- The database script (`blog/src/mongo.js`), the configuration lookup (`blog/src/app/utils/config.js`) and the HTTP tests are not part of this model either: they are I/O against a web framework and a database.
