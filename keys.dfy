/**
  Group keys and their order.

  Every group-by of the dashboard is keyed by one or more integer-coded
  columns, so a key is a sequence of integers compared lexicographically,
  which is the order in which a sorting group-by emits composite keys.
  A boolean key column is coded 0 for false and 1 for true, so false sorts
  before true.
 */
module Keys {

  type Key = seq<int>

  /** Strict lexicographic order on keys. */
  predicate Less(a: Key, b: Key)
    decreases |a|
  {
    if |a| == 0 then |b| > 0
    else if |b| == 0 then false
    else a[0] < b[0] || (a[0] == b[0] && Less(a[1..], b[1..]))
  }

  lemma {:induction false} LessIrreflexive(a: Key)
    ensures !Less(a, a)
    decreases |a|
  {
    if |a| > 0 {
      LessIrreflexive(a[1..]);
    }
  }

  lemma {:induction false} LessTransitive(a: Key, b: Key, c: Key)
    requires Less(a, b) && Less(b, c)
    ensures Less(a, c)
    decreases |a|
  {
    if |a| > 0 && a[0] == b[0] && b[0] == c[0] {
      LessTransitive(a[1..], b[1..], c[1..]);
    }
  }

  lemma {:induction false} LessTotal(a: Key, b: Key)
    requires a != b
    ensures Less(a, b) || Less(b, a)
    decreases |a|
  {
    if |a| > 0 && |b| > 0 && a[0] == b[0] {
      assert a == [a[0]] + a[1..] && b == [b[0]] + b[1..];
      LessTotal(a[1..], b[1..]);
    }
  }

  /** One-column keys are ordered by their column. */
  lemma LessOnSingle(x: int, u: int)
    ensures Less([x], [u]) <==> x < u
  {
    assert [x][1..] == [] && [u][1..] == [];
    assert !Less([], []);
  }

  /** Two-column keys are ordered by the first column, then by the second. */
  lemma LessOnPair(x: int, y: int, u: int, v: int)
    ensures Less([x, y], [u, v]) <==> x < u || (x == u && y < v)
  {
    assert [x, y][1..] == [y] && [u, v][1..] == [v];
    assert [y][1..] == [] && [v][1..] == [];
    assert !Less([], []);
    assert Less([y], [v]) <==> y < v;
  }

  ghost predicate StrictlySorted(ks: seq<Key>)
  {
    forall i, j :: 0 <= i < j < |ks| ==> Less(ks[i], ks[j])
  }

  ghost predicate Distinct<T>(s: seq<T>)
  {
    forall i, j :: 0 <= i < j < |s| ==> s[i] != s[j]
  }

  lemma SortedIsDistinct(ks: seq<Key>)
    requires StrictlySorted(ks)
    ensures Distinct(ks)
  {
    forall i, j | 0 <= i < j < |ks| ensures ks[i] != ks[j] {
      if ks[i] == ks[j] {
        LessIrreflexive(ks[i]);
      }
    }
  }

  /** Inserts k into a strictly sorted key sequence, keeping it strictly sorted and duplicate-free. */
  function Insert(k: Key, ks: seq<Key>): (r: seq<Key>)
    requires StrictlySorted(ks)
    ensures StrictlySorted(r)
    ensures forall x :: x in r <==> x == k || x in ks
    decreases |ks|
  {
    if ks == [] then [k]
    else if k == ks[0] then ks
    else if Less(k, ks[0]) then
      InsertFrontSorted(k, ks);
      [k] + ks
    else
      LessTotal(k, ks[0]);
      var rest := Insert(k, ks[1..]);
      InsertBehindSorted(ks, rest);
      [ks[0]] + rest
  }

  lemma InsertFrontSorted(k: Key, ks: seq<Key>)
    requires StrictlySorted(ks) && ks != [] && Less(k, ks[0])
    ensures StrictlySorted([k] + ks)
  {
    var r := [k] + ks;
    forall i, j | 0 <= i < j < |r| ensures Less(r[i], r[j]) {
      if i == 0 && j > 1 {
        LessTransitive(k, ks[0], ks[j - 1]);
      }
    }
  }

  lemma InsertBehindSorted(ks: seq<Key>, rest: seq<Key>)
    requires StrictlySorted(ks) && ks != [] && StrictlySorted(rest)
    requires forall x :: x in rest ==> Less(ks[0], x)
    ensures StrictlySorted([ks[0]] + rest)
  {
    var r := [ks[0]] + rest;
    forall i, j | 0 <= i < j < |r| ensures Less(r[i], r[j]) {
      if i == 0 {
        assert r[j] == rest[j - 1];
        assert r[j] in rest;
      }
    }
  }
}
