/**
 * Statistics over a list of blog records: the sum of all likes, the most
 * liked blog, the author with the most blogs and the author with the most
 * likes.
 *
 * `totalLikes`, `favoriteBlog` and the final choice of author are folds
 * (`reduce`) and are modelled as recursive functions that mirror them. The
 * per-author grouping is a loop that updates a dictionary in place and is
 * modelled as a method over a map plus the sequence of its keys in
 * insertion order, which is what a JavaScript object keeps.
 */
module ListHelper {
  import opened ObjectKeys

  datatype Blog = Blog(author: string, likes: int)

  /** `reduce` without a seed throws on an empty array. */
  datatype Error = EmptyInput

  datatype Result<T> = Ok(value: T) | Err(error: Error)

  datatype AuthorBlogs = AuthorBlogs(author: string, blogs: int)

  datatype AuthorLikes = AuthorLikes(author: string, likes: int)

  /** What the grouping adds up per record: one blog, or the record's likes. */
  datatype Measure = Blogs | Likes

  // ---------------------------------------------------------------------------
  // dummy
  // ---------------------------------------------------------------------------

  /** Always 1, whatever the list. */
  function Dummy(blogs: seq<Blog>): (r: int)
    ensures r == 1
  {
    1
  }

  // ---------------------------------------------------------------------------
  // Reference sums
  // ---------------------------------------------------------------------------

  function Weight(m: Measure, b: Blog): int {
    match m
    case Blogs => 1
    case Likes => b.likes
  }

  /** The sum of the measure over every record. */
  function Sum(m: Measure, s: seq<Blog>): int {
    if s == [] then 0 else Sum(m, s[..|s| - 1]) + Weight(m, s[|s| - 1])
  }

  lemma {:induction false} SumOfBlogsIsLength(s: seq<Blog>)
    ensures Sum(Blogs, s) == |s|
  {
    if s != [] {
      SumOfBlogsIsLength(s[..|s| - 1]);
    }
  }

  /** Peeling the first record off the sum. */
  lemma {:induction false} SumFront(m: Measure, s: seq<Blog>)
    requires s != []
    ensures Sum(m, s) == Weight(m, s[0]) + Sum(m, s[1..])
  {
    if |s| > 1 {
      SumFront(m, s[..|s| - 1]);
      assert s[..|s| - 1][1..] == s[1..][..|s| - 2];
    }
  }

  /** With no negative likes, the sum is no less than any one record's likes. */
  lemma {:induction false} SumBoundsLikes(s: seq<Blog>)
    requires forall i :: 0 <= i < |s| ==> s[i].likes >= 0
    ensures Sum(Likes, s) >= 0
    ensures forall i :: 0 <= i < |s| ==> s[i].likes <= Sum(Likes, s)
  {
    if s != [] {
      var init := s[..|s| - 1];
      SumBoundsLikes(init);
      assert forall i :: 0 <= i < |init| ==> init[i] == s[i];
    }
  }

  // ---------------------------------------------------------------------------
  // totalLikes
  // ---------------------------------------------------------------------------

  /** The seeded fold that adds each record's likes to the accumulator, front to back. */
  function FoldLikes(acc: int, blogs: seq<Blog>): int
    decreases blogs
  {
    if blogs == [] then acc else FoldLikes(acc + blogs[0].likes, blogs[1..])
  }

  lemma {:induction false} FoldLikesIsSum(acc: int, blogs: seq<Blog>)
    ensures FoldLikes(acc, blogs) == acc + Sum(Likes, blogs)
    decreases blogs
  {
    if blogs != [] {
      FoldLikesIsSum(acc + blogs[0].likes, blogs[1..]);
      SumFront(Likes, blogs);
    }
  }

  /** The fold seeded with 0: the sum of every record's likes, 0 when there are none. */
  function TotalLikes(blogs: seq<Blog>): (r: int)
    ensures r == Sum(Likes, blogs)
    ensures blogs == [] ==> r == 0
    ensures |blogs| == 1 ==> r == blogs[0].likes
  {
    FoldLikesIsSum(0, blogs);
    FoldLikes(0, blogs)
  }

  lemma TotalLikesBounds(blogs: seq<Blog>)
    requires forall i :: 0 <= i < |blogs| ==> blogs[i].likes >= 0
    ensures TotalLikes(blogs) >= 0
    ensures forall i :: 0 <= i < |blogs| ==> blogs[i].likes <= TotalLikes(blogs)
  {
    SumBoundsLikes(blogs);
  }

  // ---------------------------------------------------------------------------
  // favoriteBlog
  // ---------------------------------------------------------------------------

  /**
   * The unseeded fold from `favorite` over `rest`: a later record replaces the
   * favourite only when it has strictly more likes.
   */
  function FavoriteFrom(favorite: Blog, rest: seq<Blog>): (r: Blog)
    ensures r == favorite || r in rest
    ensures favorite.likes <= r.likes
    ensures forall b :: b in rest ==> b.likes <= r.likes
    decreases rest
  {
    if rest == [] then favorite
    else
      var next := if rest[0].likes > favorite.likes then rest[0] else favorite;
      assert forall b :: b in rest[1..] ==> b in rest;
      FavoriteFrom(next, rest[1..])
  }

  /** The record with the most likes; an error on an empty list. */
  function FavoriteBlog(blogs: seq<Blog>): (r: Result<Blog>)
    ensures r.Err? <==> blogs == []
    ensures r.Ok? ==> r.value in blogs
    ensures r.Ok? ==> forall b :: b in blogs ==> b.likes <= r.value.likes
  {
    if blogs == [] then Err(EmptyInput) else Ok(FavoriteFrom(blogs[0], blogs[1..]))
  }

  /**
   * Among the first `k` records, record `i` has the most likes and every
   * record before it has strictly fewer.
   */
  predicate IsFirstMaxAmong(blogs: seq<Blog>, k: int, i: int)
    requires k <= |blogs|
  {
    && 0 <= i < k
    && (forall j :: 0 <= j < k ==> blogs[j].likes <= blogs[i].likes)
    && (forall j :: 0 <= j < i ==> blogs[j].likes < blogs[i].likes)
  }

  /** Record `i` is the first, in input order, whose likes are maximal. */
  predicate IsFirstMax(blogs: seq<Blog>, i: int) {
    IsFirstMaxAmong(blogs, |blogs|, i)
  }

  /**
   * One step of the fold: the record with strictly more likes takes over,
   * and it is the first maximum among one record more.
   */
  lemma FavoriteFromStep(blogs: seq<Blog>, k: int, i: int)
    requires 0 < k < |blogs|
    requires IsFirstMaxAmong(blogs, k, i)
    ensures var next := if blogs[k].likes > blogs[i].likes then k else i;
            IsFirstMaxAmong(blogs, k + 1, next)
            && FavoriteFrom(blogs[i], blogs[k..]) == FavoriteFrom(blogs[next], blogs[k + 1..])
  {
    assert blogs[k..][0] == blogs[k] && blogs[k..][1..] == blogs[k + 1..];
  }

  lemma {:induction false} FavoriteFromFirstMax(blogs: seq<Blog>, k: int, i: int)
    requires 0 < k <= |blogs|
    requires IsFirstMaxAmong(blogs, k, i)
    ensures exists t :: IsFirstMax(blogs, t) && FavoriteFrom(blogs[i], blogs[k..]) == blogs[t]
    decreases |blogs| - k
  {
    if k == |blogs| {
      assert IsFirstMax(blogs, i) && FavoriteFrom(blogs[i], blogs[k..]) == blogs[i];
    } else {
      var next := if blogs[k].likes > blogs[i].likes then k else i;
      FavoriteFromStep(blogs, k, i);
      FavoriteFromFirstMax(blogs, k + 1, next);
      var t :| IsFirstMax(blogs, t) && FavoriteFrom(blogs[next], blogs[k + 1..]) == blogs[t];
      assert IsFirstMax(blogs, t) && FavoriteFrom(blogs[i], blogs[k..]) == blogs[t];
    }
  }

  /**
   * Ties go to the earliest record: the favourite is the first record, in
   * input order, whose likes are maximal.
   */
  lemma FavoriteBlogIsFirstMax(blogs: seq<Blog>)
    requires blogs != []
    ensures exists t :: IsFirstMax(blogs, t) && FavoriteBlog(blogs) == Ok(blogs[t])
    ensures forall t :: IsFirstMax(blogs, t) ==> FavoriteBlog(blogs) == Ok(blogs[t])
  {
    FavoriteFromFirstMax(blogs, 1, 0);
    var t :| IsFirstMax(blogs, t) && FavoriteBlog(blogs) == Ok(blogs[t]);
    forall u | IsFirstMax(blogs, u) ensures u == t {
    }
  }

  lemma SingleFavorite(b: Blog)
    ensures FavoriteBlog([b]) == Ok(b)
  {
  }

  // ---------------------------------------------------------------------------
  // Grouping by author (the forEach loop of mostBlogs and mostLikes)
  // ---------------------------------------------------------------------------

  predicate Occurs(blogs: seq<Blog>, a: string) {
    exists i :: 0 <= i < |blogs| && blogs[i].author == a
  }

  /** The position of the first record by `a`, or `|blogs|` when there is none. */
  function FirstIndex(blogs: seq<Blog>, a: string): (r: nat)
    ensures r <= |blogs|
    ensures r < |blogs| ==> blogs[r].author == a
    ensures forall j :: 0 <= j < r ==> blogs[j].author != a
  {
    if blogs == [] then 0
    else
      var init := blogs[..|blogs| - 1];
      var f := FirstIndex(init, a);
      assert forall j :: 0 <= j < |init| ==> init[j] == blogs[j];
      if f < |init| || blogs[|blogs| - 1].author == a then f else |blogs|
  }

  lemma OccursIffFirstIndex(blogs: seq<Blog>, a: string)
    ensures Occurs(blogs, a) <==> FirstIndex(blogs, a) < |blogs|
  {
    if Occurs(blogs, a) {
      var i :| 0 <= i < |blogs| && blogs[i].author == a;
    }
  }

  /** The measure summed over the records by author `a`. */
  function AuthorTotal(m: Measure, blogs: seq<Blog>, a: string): int {
    if blogs == [] then 0
    else
      var last := blogs[|blogs| - 1];
      AuthorTotal(m, blogs[..|blogs| - 1], a) + (if last.author == a then Weight(m, last) else 0)
  }

  lemma OccursInPrefix(blogs: seq<Blog>, k: int, a: string)
    requires 0 <= k <= |blogs|
    ensures Occurs(blogs[..k], a) ==> Occurs(blogs, a)
  {
    if Occurs(blogs[..k], a) {
      var i :| 0 <= i < k && blogs[..k][i].author == a;
      assert blogs[i].author == a;
    }
  }

  /** Occurrence in a list that grew by one record. */
  lemma OccursStep(blogs: seq<Blog>, a: string)
    requires blogs != []
    ensures Occurs(blogs, a) <==> Occurs(blogs[..|blogs| - 1], a) || blogs[|blogs| - 1].author == a
  {
    OccursInPrefix(blogs, |blogs| - 1, a);
    if Occurs(blogs, a) && blogs[|blogs| - 1].author != a {
      var i :| 0 <= i < |blogs| && blogs[i].author == a;
      assert blogs[..|blogs| - 1][i].author == a;
    }
  }

  /** An author with no record has a total of zero. */
  lemma {:induction false} AuthorTotalAbsent(m: Measure, blogs: seq<Blog>, a: string)
    requires !Occurs(blogs, a)
    ensures AuthorTotal(m, blogs, a) == 0
  {
    if blogs != [] {
      OccursStep(blogs, a);
      AuthorTotalAbsent(m, blogs[..|blogs| - 1], a);
    }
  }

  /** An author has a blog count above zero exactly when one of the records is theirs. */
  lemma {:induction false} BlogCountPositive(blogs: seq<Blog>, a: string)
    ensures AuthorTotal(Blogs, blogs, a) >= 0
    ensures AuthorTotal(Blogs, blogs, a) > 0 <==> Occurs(blogs, a)
  {
    if blogs != [] {
      OccursStep(blogs, a);
      BlogCountPositive(blogs[..|blogs| - 1], a);
    }
  }

  /**
   * The distinct authors in order of their first record: the keys of the
   * grouping dictionary in insertion order.
   */
  function Authors(blogs: seq<Blog>): (r: seq<string>)
    ensures Distinct(r)
    ensures forall a :: a in r <==> Occurs(blogs, a)
  {
    if blogs == [] then []
    else
      var init := Authors(blogs[..|blogs| - 1]);
      var a := blogs[|blogs| - 1].author;
      assert forall x :: Occurs(blogs, x) <==> x in init || x == a by {
        forall x { OccursStep(blogs, x); }
      }
      if a in init then init else init + [a]
  }

  /** Authors are listed in the order their first records appear. */
  lemma {:induction false} AuthorsInFirstOccurrenceOrder(blogs: seq<Blog>)
    ensures forall i, j :: 0 <= i < j < |Authors(blogs)| ==>
              FirstIndex(blogs, Authors(blogs)[i]) < FirstIndex(blogs, Authors(blogs)[j])
  {
    if blogs != [] {
      var init := blogs[..|blogs| - 1];
      var keys := Authors(init);
      var r := Authors(blogs);
      AuthorsInFirstOccurrenceOrder(init);
      forall i, j | 0 <= i < j < |r| ensures FirstIndex(blogs, r[i]) < FirstIndex(blogs, r[j]) {
        assert r[i] in keys;
        OccursIffFirstIndex(init, r[i]);
        if j < |keys| {
          assert r[j] in keys;
          OccursIffFirstIndex(init, r[j]);
        } else {
          assert r[j] !in keys;
          OccursIffFirstIndex(init, r[j]);
        }
      }
    }
  }

  /** Of two authors, the one whose first record comes first is listed first. */
  lemma AuthorsOrderAt(blogs: seq<Blog>, s: int, t: int)
    requires 0 <= s < |Authors(blogs)| && 0 <= t < |Authors(blogs)|
    requires FirstIndex(blogs, Authors(blogs)[s]) < FirstIndex(blogs, Authors(blogs)[t])
    ensures s < t
  {
    AuthorsInFirstOccurrenceOrder(blogs);
  }

  /**
   * The dictionary the loop builds, record by record: the first record of an
   * author creates its entry with the record's weight, later ones add to it.
   */
  function Totals(m: Measure, blogs: seq<Blog>): map<string, int> {
    if blogs == [] then map[]
    else
      var totals, b := Totals(m, blogs[..|blogs| - 1]), blogs[|blogs| - 1];
      if b.author !in totals then totals[b.author := Weight(m, b)]
      else totals[b.author := totals[b.author] + Weight(m, b)]
  }

  /** An author is a key of the dictionary exactly when one of its records is in `blogs`. */
  lemma {:induction false} TotalsHasAuthor(m: Measure, blogs: seq<Blog>, a: string)
    ensures a in Totals(m, blogs) <==> Occurs(blogs, a)
  {
    if blogs != [] {
      TotalsHasAuthor(m, blogs[..|blogs| - 1], a);
      OccursStep(blogs, a);
    }
  }

  /**
   * The dictionary has exactly the authors of `blogs` as keys, each mapped to
   * that author's total.
   */
  lemma {:induction false} TotalsAreAuthorTotals(m: Measure, blogs: seq<Blog>)
    ensures forall a :: a in Totals(m, blogs) <==> Occurs(blogs, a)
    ensures forall a :: a in Totals(m, blogs) ==> Totals(m, blogs)[a] == AuthorTotal(m, blogs, a)
  {
    if blogs != [] {
      var init, b := blogs[..|blogs| - 1], blogs[|blogs| - 1];
      TotalsAreAuthorTotals(m, init);
      forall a ensures Occurs(blogs, a) <==> Occurs(init, a) || a == b.author {
        OccursStep(blogs, a);
      }
      if b.author !in Totals(m, init) {
        AuthorTotalAbsent(m, init, b.author);
      }
    }
  }

  /** The prefix one record longer ends with that record. */
  lemma PrefixStep(blogs: seq<Blog>, i: int)
    requires 0 <= i < |blogs|
    ensures var prefix := blogs[..i + 1];
            prefix != [] && prefix[..|prefix| - 1] == blogs[..i] && prefix[|prefix| - 1] == blogs[i]
  {
  }

  lemma TotalsStep(m: Measure, blogs: seq<Blog>, i: int)
    requires 0 <= i < |blogs|
    ensures var a, w, totals := blogs[i].author, Weight(m, blogs[i]), Totals(m, blogs[..i]);
            Totals(m, blogs[..i + 1]) == (if a !in totals then totals[a := w] else totals[a := totals[a] + w])
  {
    PrefixStep(blogs, i);
  }

  lemma AuthorsStep(blogs: seq<Blog>, i: int)
    requires 0 <= i < |blogs|
    ensures var a, order := blogs[i].author, Authors(blogs[..i]);
            Authors(blogs[..i + 1]) == (if a in order then order else order + [a])
  {
    PrefixStep(blogs, i);
  }

  /**
   * One record more: the loop body's update, applied to a dictionary and key
   * order that hold the records seen so far, holds them with one record more.
   */
  lemma GroupStep(m: Measure, blogs: seq<Blog>, i: int, authors: map<string, int>, order: seq<string>)
    requires 0 <= i < |blogs|
    requires authors == Totals(m, blogs[..i]) && order == Authors(blogs[..i])
    ensures var a, w := blogs[i].author, Weight(m, blogs[i]);
            if a !in authors then
              authors[a := w] == Totals(m, blogs[..i + 1]) && order + [a] == Authors(blogs[..i + 1])
            else
              authors[a := authors[a] + w] == Totals(m, blogs[..i + 1]) && order == Authors(blogs[..i + 1])
  {
    TotalsStep(m, blogs, i);
    AuthorsStep(blogs, i);
    TotalsHasAuthor(m, blogs[..i], blogs[i].author);
  }

  /**
   * The forEach loop: builds the author -> total dictionary in place, adding
   * a key (with the record's own weight) the first time an author is seen and
   * adding the weight to the existing entry afterwards. `order` is the
   * dictionary's key insertion order.
   */
  method GroupByAuthor(m: Measure, blogs: seq<Blog>) returns (authors: map<string, int>, order: seq<string>)
    ensures order == Authors(blogs)
    ensures authors == Totals(m, blogs)
  {
    authors, order := map[], [];
    var i := 0;
    while i < |blogs|
      invariant 0 <= i <= |blogs|
      invariant authors == Totals(m, blogs[..i])
      invariant order == Authors(blogs[..i])
    {
      var author, weight := blogs[i].author, Weight(m, blogs[i]);
      GroupStep(m, blogs, i, authors, order);
      if author !in authors {
        authors := authors[author := weight];
        order := order + [author];
      } else {
        authors := authors[author := authors[author] + weight];
      }
      i := i + 1;
    }
    assert blogs[..i] == blogs;
  }

  /** The totals of all authors add up to the measure over the whole list. */
  function SumOver(m: Measure, blogs: seq<Blog>, keys: seq<string>): int {
    if keys == [] then 0
    else SumOver(m, blogs, keys[..|keys| - 1]) + AuthorTotal(m, blogs, keys[|keys| - 1])
  }

  lemma {:induction false} SumOverStep(m: Measure, blogs: seq<Blog>, keys: seq<string>)
    requires blogs != [] && Distinct(keys)
    ensures var last := blogs[|blogs| - 1];
            SumOver(m, blogs, keys) ==
            SumOver(m, blogs[..|blogs| - 1], keys) + (if last.author in keys then Weight(m, last) else 0)
  {
    if keys != [] {
      var init := keys[..|keys| - 1];
      assert Distinct(init);
      assert keys[|keys| - 1] !in init;
      assert forall k :: k in keys <==> k in init || k == keys[|keys| - 1];
      SumOverStep(m, blogs, init);
    }
  }

  lemma {:induction false} AuthorTotalsAddUp(m: Measure, blogs: seq<Blog>)
    ensures SumOver(m, blogs, Authors(blogs)) == Sum(m, blogs)
  {
    if blogs != [] {
      var init := blogs[..|blogs| - 1];
      var last := blogs[|blogs| - 1];
      var keys := Authors(init);
      AuthorTotalsAddUp(m, init);
      SumOverStep(m, blogs, keys);
      if last.author !in keys {
        AuthorTotalAbsent(m, init, last.author);
        assert (keys + [last.author])[..|keys|] == keys;
      }
    }
  }

  /** The blog counts of all authors add up to the number of records. */
  lemma BlogCountsAddUp(blogs: seq<Blog>)
    ensures SumOver(Blogs, blogs, Authors(blogs)) == |blogs|
  {
    AuthorTotalsAddUp(Blogs, blogs);
    SumOfBlogsIsLength(blogs);
  }

  /** The like totals of all authors add up to `totalLikes`. */
  lemma LikeTotalsAddUp(blogs: seq<Blog>)
    ensures SumOver(Likes, blogs, Authors(blogs)) == TotalLikes(blogs)
  {
    AuthorTotalsAddUp(Likes, blogs);
  }

  // ---------------------------------------------------------------------------
  // The choice of author: the unseeded fold over the keys in `Object.keys`
  // order, keeping the earlier key only when its total is strictly greater
  // ---------------------------------------------------------------------------

  /** The unseeded fold from `a` over `rest`: keeps `a` only when its total is strictly greater. */
  function PickFrom<K>(totals: map<K, int>, a: K, rest: seq<K>): (r: K)
    requires a in totals && forall k :: k in rest ==> k in totals
    ensures r == a || r in rest
    ensures totals[a] <= totals[r]
    ensures forall k :: k in rest ==> totals[k] <= totals[r]
    decreases rest
  {
    if rest == [] then a
    else
      var next := if totals[a] > totals[rest[0]] then a else rest[0];
      assert forall k :: k in rest[1..] ==> k in rest;
      PickFrom(totals, next, rest[1..])
  }

  function Pick<K>(totals: map<K, int>, keys: seq<K>): (r: K)
    requires keys != [] && forall k :: k in keys ==> k in totals
    ensures r in keys
    ensures forall k :: k in keys ==> totals[k] <= totals[r]
  {
    PickFrom(totals, keys[0], keys[1..])
  }

  /**
   * Among the first `k` keys, key `t` has the largest total and every later
   * one has a strictly smaller total.
   */
  predicate IsLastMaxAmong<K>(totals: map<K, int>, keys: seq<K>, k: int, t: int)
    requires k <= |keys| && forall x :: x in keys ==> x in totals
  {
    && 0 <= t < k
    && (forall j :: 0 <= j < k ==> totals[keys[j]] <= totals[keys[t]])
    && (forall j :: t < j < k ==> totals[keys[j]] < totals[keys[t]])
  }

  /** Key `t` is the last whose total is the largest. */
  predicate IsLastMax<K>(totals: map<K, int>, keys: seq<K>, t: int)
    requires forall x :: x in keys ==> x in totals
  {
    IsLastMaxAmong(totals, keys, |keys|, t)
  }

  /** One more key: the fold's choice stays the last maximum. */
  lemma LastMaxStep<K>(totals: map<K, int>, keys: seq<K>, k: int, t: int)
    requires forall x :: x in keys ==> x in totals
    requires k < |keys| && IsLastMaxAmong(totals, keys, k, t)
    ensures IsLastMaxAmong(totals, keys, k + 1, if totals[keys[t]] > totals[keys[k]] then t else k)
  {
  }

  lemma {:induction false} PickFromLastMax<K>(totals: map<K, int>, keys: seq<K>, k: int, t: int)
    requires forall x :: x in keys ==> x in totals
    requires 0 < k <= |keys|
    requires IsLastMaxAmong(totals, keys, k, t)
    ensures exists u :: IsLastMax(totals, keys, u) && PickFrom(totals, keys[t], keys[k..]) == keys[u]
    decreases |keys| - k
  {
    if k == |keys| {
      assert IsLastMax(totals, keys, t) && PickFrom(totals, keys[t], keys[k..]) == keys[t];
    } else {
      var next := if totals[keys[t]] > totals[keys[k]] then t else k;
      LastMaxStep(totals, keys, k, t);
      assert PickFrom(totals, keys[t], keys[k..]) == PickFrom(totals, keys[next], keys[k + 1..]) by {
        assert forall x :: x in keys[k..] ==> x in keys;
        assert keys[k..][0] == keys[k] && keys[k..][1..] == keys[k + 1..];
      }
      PickFromLastMax(totals, keys, k + 1, next);
      var u :| IsLastMax(totals, keys, u) && PickFrom(totals, keys[next], keys[k + 1..]) == keys[u];
      assert IsLastMax(totals, keys, u) && PickFrom(totals, keys[t], keys[k..]) == keys[u];
    }
  }

  /** Ties go to the latest key: the pick is the last key whose total is maximal. */
  lemma PickIsLastMax<K>(totals: map<K, int>, keys: seq<K>)
    requires keys != [] && forall k :: k in keys ==> k in totals
    ensures exists u :: IsLastMax(totals, keys, u) && Pick(totals, keys) == keys[u]
    ensures forall u :: IsLastMax(totals, keys, u) ==> Pick(totals, keys) == keys[u]
  {
    PickFromLastMax(totals, keys, 1, 0);
    var t :| IsLastMax(totals, keys, t) && Pick(totals, keys) == keys[t];
    forall u | IsLastMax(totals, keys, u) ensures u == t {
    }
  }

  // ---------------------------------------------------------------------------
  // mostBlogs and mostLikes
  // ---------------------------------------------------------------------------

  /** The order in which `Object.keys` lists the authors of the grouping dictionary. */
  function KeyOrder(blogs: seq<Blog>): seq<string> {
    OwnKeys(Authors(blogs))
  }

  /**
   * Among `keys`, `a` has the largest total, and every key after it has a
   * strictly smaller one.
   */
  predicate IsLastMaxAuthor(m: Measure, blogs: seq<Blog>, keys: seq<string>, a: string) {
    && a in keys
    && (forall k :: k in keys ==> AuthorTotal(m, blogs, k) <= AuthorTotal(m, blogs, a))
    && (forall t, j :: 0 <= t < j < |keys| && keys[t] == a ==>
          AuthorTotal(m, blogs, keys[j]) < AuthorTotal(m, blogs, a))
  }

  /**
   * `a` is the author the two statistics return: the one with the largest
   * total, and, among those tied at the largest total, the last in key order.
   */
  predicate IsTopAuthor(m: Measure, blogs: seq<Blog>, a: string) {
    IsLastMaxAuthor(m, blogs, KeyOrder(blogs), a)
  }

  /** At most one author is the top author. */
  lemma TopAuthorUnique(m: Measure, blogs: seq<Blog>, a: string, b: string)
    requires IsTopAuthor(m, blogs, a) && IsTopAuthor(m, blogs, b)
    ensures a == b
  {
    var keys := KeyOrder(blogs);
    assert IsLastMaxAuthor(m, blogs, keys, a) && IsLastMaxAuthor(m, blogs, keys, b);
    var t :| 0 <= t < |keys| && keys[t] == a;
    var u :| 0 <= u < |keys| && keys[u] == b;
    assert AuthorTotal(m, blogs, a) == AuthorTotal(m, blogs, b);
    assert !(t < u) && !(u < t);
  }

  /**
   * Among the authors tied at the top, the winner is the one whose first
   * record comes last, except that names that are array indices go first:
   * every author whose name is not an array index and whose first record
   * comes after the winner's has a strictly smaller total.
   */
  lemma TopAuthorIsLastFirstSeen(m: Measure, blogs: seq<Blog>, a: string, b: string)
    requires IsTopAuthor(m, blogs, a)
    requires Occurs(blogs, b) && !IsArrayIndex(b) && FirstIndex(blogs, a) < FirstIndex(blogs, b)
    ensures AuthorTotal(m, blogs, b) < AuthorTotal(m, blogs, a)
  {
    var order := Authors(blogs);
    var keys := OwnKeys(order);
    var ta :| 0 <= ta < |keys| && keys[ta] == a;
    assert b in keys;
    var tb :| 0 <= tb < |keys| && keys[tb] == b;
    var pa :| 0 <= pa < |order| && order[pa] == a;
    var pb :| 0 <= pb < |order| && order[pb] == b;
    PositionOfMember(order, pa);
    PositionOfMember(order, pb);
    AuthorsOrderAt(blogs, Position(order, a), Position(order, b));
    OwnKeysOrderAt(order, ta, tb);
  }

  /**
   * When the winner's name is an array index, every author listed after it
   * has a strictly smaller total: each author whose name is not an array
   * index, and each whose name is a larger array index.
   */
  lemma TopIndexAuthor(m: Measure, blogs: seq<Blog>, a: string, b: string)
    requires IsTopAuthor(m, blogs, a) && IsArrayIndex(a)
    requires Occurs(blogs, b) && (IsArrayIndex(b) ==> DecimalValue(a) < DecimalValue(b))
    ensures AuthorTotal(m, blogs, b) < AuthorTotal(m, blogs, a)
  {
    var keys := KeyOrder(blogs);
    var ta :| 0 <= ta < |keys| && keys[ta] == a;
    assert b in keys;
    var tb :| 0 <= tb < |keys| && keys[tb] == b;
    assert ta < tb;
  }

  lemma KeyOrderWithoutIndices(blogs: seq<Blog>)
    requires forall i :: 0 <= i < |blogs| ==> !IsArrayIndex(blogs[i].author)
    ensures KeyOrder(blogs) == Authors(blogs)
  {
    forall k | k in Authors(blogs) ensures !IsArrayIndex(k) {
      var i :| 0 <= i < |blogs| && blogs[i].author == k;
    }
  }

  /** The key picked from the grouping dictionary is the last with the largest total. */
  lemma PickIsLastMaxAuthor(m: Measure, blogs: seq<Blog>, authors: map<string, int>, keys: seq<string>)
    requires keys != [] && Distinct(keys)
    requires forall k :: k in keys ==> k in authors && authors[k] == AuthorTotal(m, blogs, k)
    ensures IsLastMaxAuthor(m, blogs, keys, Pick(authors, keys))
  {
    PickIsLastMax(authors, keys);
    var u :| IsLastMax(authors, keys, u) && Pick(authors, keys) == keys[u];
    forall j | 0 <= j < |keys| ensures authors[keys[j]] == AuthorTotal(m, blogs, keys[j]) {
      assert keys[j] in keys;
    }
  }

  /**
   * `mostBlogs`: the author with the most blogs and that count. Fails on an
   * empty list, where the fold over the keys has no seed.
   */
  method MostBlogs(blogs: seq<Blog>) returns (r: Result<AuthorBlogs>)
    ensures r.Err? <==> blogs == []
    ensures r.Ok? ==> Occurs(blogs, r.value.author)
    ensures r.Ok? ==> r.value.blogs == AuthorTotal(Blogs, blogs, r.value.author)
    ensures r.Ok? ==> forall a :: Occurs(blogs, a) ==> AuthorTotal(Blogs, blogs, a) <= r.value.blogs
    ensures r.Ok? ==> IsTopAuthor(Blogs, blogs, r.value.author)
    ensures |blogs| == 1 ==> r == Ok(AuthorBlogs(blogs[0].author, 1))
  {
    var authors, order := GroupByAuthor(Blogs, blogs);
    TotalsAreAuthorTotals(Blogs, blogs);
    var keys := OwnKeys(order);
    if keys == [] {
      assert blogs != [] ==> blogs[0].author in keys;
      return Err(EmptyInput);
    }
    assert forall k :: k in keys ==> k in authors && authors[k] == AuthorTotal(Blogs, blogs, k);
    PickIsLastMaxAuthor(Blogs, blogs, authors, keys);
    var author := Pick(authors, keys);
    r := Ok(AuthorBlogs(author, authors[author]));
    if |blogs| == 1 {
      assert Occurs(blogs, blogs[0].author);
      assert author == blogs[0].author;
    }
  }

  /**
   * `mostLikes`: the author with the most likes in total and that total.
   * Fails on an empty list, where the fold over the keys has no seed.
   */
  method MostLikes(blogs: seq<Blog>) returns (r: Result<AuthorLikes>)
    ensures r.Err? <==> blogs == []
    ensures r.Ok? ==> Occurs(blogs, r.value.author)
    ensures r.Ok? ==> r.value.likes == AuthorTotal(Likes, blogs, r.value.author)
    ensures r.Ok? ==> forall a :: Occurs(blogs, a) ==> AuthorTotal(Likes, blogs, a) <= r.value.likes
    ensures r.Ok? ==> IsTopAuthor(Likes, blogs, r.value.author)
    ensures |blogs| == 1 ==> r == Ok(AuthorLikes(blogs[0].author, blogs[0].likes))
  {
    var authors, order := GroupByAuthor(Likes, blogs);
    TotalsAreAuthorTotals(Likes, blogs);
    var keys := OwnKeys(order);
    if keys == [] {
      assert blogs != [] ==> blogs[0].author in keys;
      return Err(EmptyInput);
    }
    assert forall k :: k in keys ==> k in authors && authors[k] == AuthorTotal(Likes, blogs, k);
    PickIsLastMaxAuthor(Likes, blogs, authors, keys);
    var author := Pick(authors, keys);
    r := Ok(AuthorLikes(author, authors[author]));
    if |blogs| == 1 {
      assert Occurs(blogs, blogs[0].author);
      assert author == blogs[0].author;
    }
  }
}
