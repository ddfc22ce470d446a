/**
 * The order in which JavaScript's `Object.keys` lists the own string keys of
 * an ordinary object (the OrdinaryOwnPropertyKeys algorithm of ECMA-262,
 * section 10.1.11.1 in the 2023 edition): first every key that is an array
 * index, in ascending numeric order, then every other key in the order it was
 * first inserted.
 */
module ObjectKeys {

  predicate IsDigit(c: char) {
    '0' <= c <= '9'
  }

  /** The value of a string read as a decimal numeral (meaningful for digit strings). */
  function DecimalValue(k: string): int {
    if k == [] then 0 else 10 * DecimalValue(k[..|k| - 1]) + (k[|k| - 1] as int - '0' as int)
  }

  /** 2^32 - 2, the largest array index. */
  const MaxArrayIndex: int := 0xFFFF_FFFE

  /**
   * An array index: the canonical decimal numeral (no sign, no leading zero)
   * of an integer between 0 and 2^32 - 2.
   */
  predicate IsArrayIndex(k: string) {
    && |k| > 0
    && (forall i :: 0 <= i < |k| ==> IsDigit(k[i]))
    && (k[0] == '0' ==> |k| == 1)
    && DecimalValue(k) <= MaxArrayIndex
  }

  predicate Distinct(s: seq<string>) {
    forall i, j :: 0 <= i < j < |s| ==> s[i] != s[j]
  }

  predicate Ascending(s: seq<string>) {
    forall i, j :: 0 <= i < j < |s| ==> DecimalValue(s[i]) <= DecimalValue(s[j])
  }

  predicate IsNamedKey(k: string) {
    !IsArrayIndex(k)
  }

  /** The keys of `ks` that satisfy `keep`, in their order in `ks`. */
  function Filter(ks: seq<string>, keep: string -> bool): (r: seq<string>)
    ensures forall k :: k in r <==> k in ks && keep(k)
    ensures Distinct(ks) ==> Distinct(r)
  {
    if ks == [] then []
    else if keep(ks[0]) then [ks[0]] + Filter(ks[1..], keep)
    else Filter(ks[1..], keep)
  }

  /** A filter that keeps every key changes nothing. */
  lemma {:induction false} FilterKeepsAll(ks: seq<string>, keep: string -> bool)
    requires forall k :: k in ks ==> keep(k)
    ensures Filter(ks, keep) == ks
  {
    if ks != [] {
      assert forall k :: k in ks[1..] ==> k in ks;
      FilterKeepsAll(ks[1..], keep);
    }
  }

  /** The index of the first occurrence of `x` in `ks`, or `|ks|` when there is none. */
  function Position(ks: seq<string>, x: string): (r: nat)
    ensures r <= |ks|
    ensures r < |ks| ==> ks[r] == x
  {
    if ks == [] then 0 else if ks[0] == x then 0 else 1 + Position(ks[1..], x)
  }

  /** A key of `ks` is found at its first occurrence, ahead of any later one. */
  lemma {:induction false} PositionOfMember(ks: seq<string>, i: int)
    requires 0 <= i < |ks|
    ensures Position(ks, ks[i]) <= i
  {
    if ks[0] != ks[i] {
      assert ks[i] == ks[1..][i - 1];
      PositionOfMember(ks[1..], i - 1);
    }
  }

  /** `r` lists its keys in the order they have in `ks`. */
  predicate KeepsOrder(ks: seq<string>, r: seq<string>) {
    forall i, j :: 0 <= i < j < |r| ==> Position(ks, r[i]) < Position(ks, r[j])
  }

  /** Past the first key, positions count from the tail. */
  lemma PositionInTail(ks: seq<string>, x: string)
    requires ks != [] && x != ks[0]
    ensures Position(ks, x) == 1 + Position(ks[1..], x)
  {
  }

  /** A kept first key goes in front of the filtered tail, whose keys come later in `ks`. */
  lemma FilterKeptHeadOrder(ks: seq<string>, keep: string -> bool)
    requires ks != [] && keep(ks[0]) && ks[0] !in ks[1..]
    requires KeepsOrder(ks[1..], Filter(ks[1..], keep))
    ensures KeepsOrder(ks, Filter(ks, keep))
  {
    var r, rest := Filter(ks, keep), Filter(ks[1..], keep);
    assert |r| == |rest| + 1 && r[0] == ks[0];
    forall i, j | 0 <= i < j < |r| ensures Position(ks, r[i]) < Position(ks, r[j]) {
      assert r[j] == rest[j - 1] && rest[j - 1] in rest;
      PositionInTail(ks, r[j]);
      if i > 0 {
        assert r[i] == rest[i - 1] && rest[i - 1] in rest;
        PositionInTail(ks, r[i]);
      }
    }
  }

  /** A dropped first key is none of the filtered tail's keys. */
  lemma FilterDroppedHeadOrder(ks: seq<string>, keep: string -> bool)
    requires ks != [] && !keep(ks[0])
    requires KeepsOrder(ks[1..], Filter(ks[1..], keep))
    ensures KeepsOrder(ks, Filter(ks, keep))
  {
    var r := Filter(ks, keep);
    assert r == Filter(ks[1..], keep);
    forall i, j | 0 <= i < j < |r| ensures Position(ks, r[i]) < Position(ks, r[j]) {
      assert r[i] in r && r[j] in r;
      PositionInTail(ks, r[i]);
      PositionInTail(ks, r[j]);
    }
  }

  /** Filtering keeps the relative order of the keys it keeps. */
  lemma {:induction false} FilterInOrder(ks: seq<string>, keep: string -> bool)
    requires Distinct(ks)
    ensures KeepsOrder(ks, Filter(ks, keep))
  {
    if ks != [] {
      assert Distinct(ks[1..]) && ks[0] !in ks[1..];
      FilterInOrder(ks[1..], keep);
      if keep(ks[0]) {
        FilterKeptHeadOrder(ks, keep);
      } else {
        FilterDroppedHeadOrder(ks, keep);
      }
    }
  }

  /** Inserts `k` into `sorted` before the first key of larger numeric value. */
  function InsertIndex(k: string, sorted: seq<string>): (r: seq<string>)
    ensures forall x :: x in r <==> x == k || x in sorted
  {
    if sorted == [] then [k]
    else if DecimalValue(k) < DecimalValue(sorted[0]) then [k] + sorted
    else [sorted[0]] + InsertIndex(k, sorted[1..])
  }

  lemma {:induction false} InsertIndexAscending(k: string, sorted: seq<string>)
    requires Ascending(sorted)
    ensures Ascending(InsertIndex(k, sorted))
  {
    if sorted != [] && DecimalValue(k) >= DecimalValue(sorted[0]) {
      var rest := InsertIndex(k, sorted[1..]);
      var r := [sorted[0]] + rest;
      assert Ascending(sorted[1..]);
      InsertIndexAscending(k, sorted[1..]);
      forall i, j | 0 <= i < j < |r| ensures DecimalValue(r[i]) <= DecimalValue(r[j]) {
        if i > 0 {
          assert r[i] == rest[i - 1] && r[j] == rest[j - 1];
        } else {
          assert r[j] in rest;
        }
      }
    }
  }

  lemma {:induction false} InsertIndexDistinct(k: string, sorted: seq<string>)
    requires Distinct(sorted) && k !in sorted
    ensures Distinct(InsertIndex(k, sorted))
  {
    if sorted != [] && DecimalValue(k) >= DecimalValue(sorted[0]) {
      var rest := InsertIndex(k, sorted[1..]);
      var r := [sorted[0]] + rest;
      assert Distinct(sorted[1..]) && sorted[0] !in sorted[1..];
      InsertIndexDistinct(k, sorted[1..]);
      forall i, j | 0 <= i < j < |r| ensures r[i] != r[j] {
        if i > 0 {
          assert r[i] == rest[i - 1] && r[j] == rest[j - 1];
        } else {
          assert r[j] in rest;
        }
      }
    }
  }

  /** `ks` rearranged into ascending numeric order. */
  function SortIndices(ks: seq<string>): (r: seq<string>)
    ensures forall x :: x in r <==> x in ks
    ensures Ascending(r)
    ensures Distinct(ks) ==> Distinct(r)
  {
    if ks == [] then []
    else
      var rest := SortIndices(ks[1..]);
      InsertIndexAscending(ks[0], rest);
      assert Distinct(ks) ==> Distinct(InsertIndex(ks[0], rest)) by {
        if Distinct(ks) {
          assert Distinct(ks[1..]) && ks[0] !in ks[1..];
          InsertIndexDistinct(ks[0], rest);
        }
      }
      InsertIndex(ks[0], rest)
  }

  /** A sequence of array indices in ascending order followed by keys that are not. */
  lemma IndicesFirst(indices: seq<string>, named: seq<string>)
    requires Ascending(indices)
    requires forall k :: k in named ==> !IsArrayIndex(k)
    requires forall k :: k in indices ==> IsArrayIndex(k)
    ensures var r := indices + named;
            forall i, j :: 0 <= i < j < |r| && IsArrayIndex(r[j]) ==>
              IsArrayIndex(r[i]) && DecimalValue(r[i]) <= DecimalValue(r[j])
  {
    var r := indices + named;
    forall i, j | 0 <= i < j < |r| && IsArrayIndex(r[j])
      ensures IsArrayIndex(r[i]) && DecimalValue(r[i]) <= DecimalValue(r[j])
    {
      assert r[i] == indices[i] && r[j] == indices[j];
      assert r[i] in indices;
    }
  }

  lemma DisjointDistinct(xs: seq<string>, ys: seq<string>)
    requires Distinct(xs) && Distinct(ys)
    requires forall k :: k in xs ==> k !in ys
    ensures Distinct(xs + ys)
  {
    var r := xs + ys;
    forall i, j | 0 <= i < j < |r| ensures r[i] != r[j] {
      if i < |xs| && j >= |xs| {
        assert r[i] in xs && r[j] == ys[j - |xs|];
      }
    }
  }

  /**
   * The order `Object.keys` lists the keys of an object whose keys were
   * inserted in the order `inserted`. It lists the same keys; array indices
   * come first and ascend; and when no key is an array index it is the
   * insertion order itself.
   */
  function OwnKeys(inserted: seq<string>): (r: seq<string>)
    ensures forall k :: k in r <==> k in inserted
    ensures Distinct(inserted) ==> Distinct(r)
    ensures forall i, j :: 0 <= i < j < |r| && IsArrayIndex(r[j]) ==>
              IsArrayIndex(r[i]) && DecimalValue(r[i]) <= DecimalValue(r[j])
    ensures (forall k :: k in inserted ==> !IsArrayIndex(k)) ==> r == inserted
  {
    var found := Filter(inserted, IsArrayIndex);
    assert (forall k :: k in inserted ==> !IsArrayIndex(k)) ==> found == [] by {
      if found != [] { assert found[0] in found; }
    }
    var indices := SortIndices(found);
    var named := Filter(inserted, IsNamedKey);
    assert (forall k :: k in inserted ==> !IsArrayIndex(k)) ==> named == inserted by {
      if forall k :: k in inserted ==> !IsArrayIndex(k) {
        FilterKeepsAll(inserted, IsNamedKey);
      }
    }
    IndicesFirst(indices, named);
    assert Distinct(inserted) ==> Distinct(indices + named) by {
      if Distinct(inserted) {
        DisjointDistinct(indices, named);
      }
    }
    indices + named
  }

  /** Array indices placed in front of keys that are not leave the latter in order. */
  lemma IndicesThenNamedOrder(ks: seq<string>, indices: seq<string>, named: seq<string>)
    requires forall k :: k in indices ==> IsArrayIndex(k)
    requires forall k :: k in named ==> !IsArrayIndex(k)
    requires KeepsOrder(ks, named)
    ensures var r := indices + named;
            forall i, j :: 0 <= i < j < |r| && !IsArrayIndex(r[i]) ==>
              !IsArrayIndex(r[j]) && Position(ks, r[i]) < Position(ks, r[j])
  {
    var r, n := indices + named, |indices|;
    assert forall k :: 0 <= k < n ==> r[k] == indices[k] && indices[k] in indices;
    forall i, j | 0 <= i < j < |r| && !IsArrayIndex(r[i])
      ensures !IsArrayIndex(r[j]) && Position(ks, r[i]) < Position(ks, r[j])
    {
      assert r[i] == named[i - n] && r[j] == named[j - n] && named[j - n] in named;
    }
  }

  /**
   * Keys that are not array indices keep their insertion order, after every
   * array index: a key that is not an array index is listed before exactly
   * the keys inserted after it and before no array index.
   */
  lemma OwnKeysKeepInsertionOrder(inserted: seq<string>)
    requires Distinct(inserted)
    ensures var r := OwnKeys(inserted);
            forall i, j :: 0 <= i < j < |r| && !IsArrayIndex(r[i]) ==>
              !IsArrayIndex(r[j]) && Position(inserted, r[i]) < Position(inserted, r[j])
  {
    var indices, named := SortIndices(Filter(inserted, IsArrayIndex)), Filter(inserted, IsNamedKey);
    FilterInOrder(inserted, IsNamedKey);
    IndicesThenNamedOrder(inserted, indices, named);
  }

  /** Of two listed keys, the later-inserted one is listed later when it is not an array index. */
  lemma OwnKeysOrderAt(inserted: seq<string>, i: int, j: int)
    requires Distinct(inserted)
    requires 0 <= i < |OwnKeys(inserted)| && 0 <= j < |OwnKeys(inserted)|
    requires !IsArrayIndex(OwnKeys(inserted)[j])
    requires Position(inserted, OwnKeys(inserted)[i]) < Position(inserted, OwnKeys(inserted)[j])
    ensures i < j
  {
    OwnKeysKeepInsertionOrder(inserted);
  }
}
