/**
  A sorting group-by over a sequence of rows.

  `GroupBy(rows, key)` splits `rows` into one group per distinct key, in
  ascending key order; each group keeps its rows in input order. Sums,
  counts and means of a column are then folds over a group's members.
 */
module Grouping {
  import opened Keys

  /** The sum of column f over the rows s. */
  function Sum<T(!new)>(s: seq<T>, f: T -> int): int
  {
    if s == [] then 0 else f(s[0]) + Sum(s[1..], f)
  }

  /** The sum of a real-valued column f over the rows s. */
  function SumReal<T(!new)>(s: seq<T>, f: T -> real): real
  {
    if s == [] then 0.0 else f(s[0]) + SumReal(s[1..], f)
  }

  /** The mean of column f over the non-empty rows s. */
  function Mean<T(!new)>(s: seq<T>, f: T -> int): real
    requires s != []
  {
    Sum(s, f) as real / |s| as real
  }

  /** The rows of s that satisfy p, in their original order (a boolean row mask). */
  function Where<T(!new)>(s: seq<T>, p: T -> bool): (r: seq<T>)
    ensures |r| <= |s|
    ensures forall x :: x in r <==> x in s && p(x)
  {
    if s == [] then []
    else (if p(s[0]) then [s[0]] else []) + Where(s[1..], p)
  }

  /** Key k occurs among the rows. */
  ghost predicate Observed<T(!new)>(rows: seq<T>, key: T -> Key, k: Key)
  {
    exists r :: r in rows && key(r) == k
  }

  /** The rows whose key is k, in their original order. */
  function Members<T(!new)>(rows: seq<T>, key: T -> Key, k: Key): (m: seq<T>)
    ensures |m| <= |rows|
    ensures forall r :: r in m <==> r in rows && key(r) == k
  {
    Where(rows, r => key(r) == k)
  }

  /** The rows whose key is not k, in their original order. */
  function Others<T(!new)>(rows: seq<T>, key: T -> Key, k: Key): (m: seq<T>)
    ensures |m| <= |rows|
    ensures forall r :: r in m <==> r in rows && key(r) != k
  {
    Where(rows, r => key(r) != k)
  }

  /** The distinct keys of the rows, in strictly ascending order. */
  function SortedKeys<T(!new)>(rows: seq<T>, key: T -> Key): (ks: seq<Key>)
    ensures StrictlySorted(ks)
    ensures forall k :: k in ks <==> Observed(rows, key, k)
  {
    if rows == [] then []
    else
      var rest := SortedKeys(rows[1..], key);
      assert forall r :: r in rows <==> r == rows[0] || r in rows[1..] by {
        assert rows == [rows[0]] + rows[1..];
      }
      Insert(key(rows[0]), rest)
  }

  datatype Group<T> = Group(key: Key, members: seq<T>)

  /**
    Groups rows by key: one group per distinct observed key, keys strictly
    ascending (so no key appears twice), and each group holds exactly the
    rows with its key, of which there is at least one.
   */
  function GroupBy<T(!new)>(rows: seq<T>, key: T -> Key): (gs: seq<Group<T>>)
    ensures forall i, j :: 0 <= i < j < |gs| ==> Less(gs[i].key, gs[j].key)
    ensures forall k :: Observed(rows, key, k) <==> exists i :: 0 <= i < |gs| && gs[i].key == k
    ensures forall i :: 0 <= i < |gs| ==> gs[i].members == Members(rows, key, gs[i].key)
    ensures forall i :: 0 <= i < |gs| ==> gs[i].members != []
  {
    var ks := SortedKeys(rows, key);
    var gs := seq(|ks|, i requires 0 <= i < |ks| => Group(ks[i], Members(rows, key, ks[i])));
    assert forall i :: 0 <= i < |gs| ==> gs[i].members != [] by {
      forall i | 0 <= i < |gs| ensures gs[i].members != [] {
        assert ks[i] in ks;
        var r :| r in rows && key(r) == ks[i];
        assert r in gs[i].members;
      }
    }
    assert forall k :: Observed(rows, key, k) ==> exists i :: 0 <= i < |gs| && gs[i].key == k by {
      forall k | Observed(rows, key, k) ensures exists i :: 0 <= i < |gs| && gs[i].key == k {
        assert k in ks;
        var i :| 0 <= i < |ks| && ks[i] == k;
        assert gs[i].key == k;
      }
    }
    assert forall k :: (exists i :: 0 <= i < |gs| && gs[i].key == k) ==> Observed(rows, key, k) by {
      forall k | exists i :: 0 <= i < |gs| && gs[i].key == k ensures Observed(rows, key, k) {
        var i :| 0 <= i < |gs| && gs[i].key == k;
        assert ks[i] in ks;
      }
    }
    gs
  }

  /** Every member of a group carries the group's key. */
  lemma GroupMembersHaveKey<T(!new)>(rows: seq<T>, key: T -> Key, i: nat, r: T)
    requires i < |GroupBy(rows, key)| && r in GroupBy(rows, key)[i].members
    ensures key(r) == GroupBy(rows, key)[i].key && r in rows
  {
  }

  // ---------------------------------------------------------------------------
  // Conservation of sums across groups

  lemma {:induction false} SumSplit<T(!new)>(rows: seq<T>, key: T -> Key, k: Key, f: T -> int)
    ensures Sum(rows, f) == Sum(Members(rows, key, k), f) + Sum(Others(rows, key, k), f)
  {
    if rows != [] {
      var x := rows[0];
      SumSplit(rows[1..], key, k, f);
      var m, o := Members(rows[1..], key, k), Others(rows[1..], key, k);
      if key(x) == k {
        assert Members(rows, key, k) == [x] + m && Others(rows, key, k) == o;
        SumConcat([x], m, f);
      } else {
        assert Members(rows, key, k) == m && Others(rows, key, k) == [x] + o;
        SumConcat([x], o, f);
      }
    }
  }

  lemma {:induction false} SumConcat<T(!new)>(a: seq<T>, b: seq<T>, f: T -> int)
    ensures Sum(a + b, f) == Sum(a, f) + Sum(b, f)
  {
    if a != [] {
      assert (a + b)[0] == a[0] && (a + b)[1..] == a[1..] + b;
      SumConcat(a[1..], b, f);
    } else {
      assert a + b == b;
    }
  }

  /** Removing the rows of key k0 leaves the groups of every other key intact. */
  lemma {:induction false} MembersOfOthers<T(!new)>(rows: seq<T>, key: T -> Key, k0: Key, k: Key)
    requires k != k0
    ensures Members(Others(rows, key, k0), key, k) == Members(rows, key, k)
  {
    if rows != [] {
      MembersOfOthers(rows[1..], key, k0, k);
      var x := rows[0];
      var o := Others(rows[1..], key, k0);
      if key(x) != k0 {
        assert Others(rows, key, k0) == [x] + o;
        assert ([x] + o)[1..] == o;
      } else {
        assert Others(rows, key, k0) == o;
      }
    }
  }

  /** The sum of column f over the groups with keys ks, one after the other. */
  function GroupSum<T(!new)>(rows: seq<T>, key: T -> Key, ks: seq<Key>, f: T -> int): int
  {
    if ks == [] then 0 else Sum(Members(rows, key, ks[0]), f) + GroupSum(rows, key, ks[1..], f)
  }

  lemma {:induction false} GroupSumOthers<T(!new)>(rows: seq<T>, key: T -> Key, k0: Key, ks: seq<Key>, f: T -> int)
    requires k0 !in ks
    ensures GroupSum(Others(rows, key, k0), key, ks, f) == GroupSum(rows, key, ks, f)
  {
    if ks != [] {
      MembersOfOthers(rows, key, k0, ks[0]);
      GroupSumOthers(rows, key, k0, ks[1..], f);
    }
  }

  /** Summing group by group over distinct keys that cover all rows gives the column total. */
  lemma {:induction false} GroupSumTotal<T(!new)>(rows: seq<T>, key: T -> Key, ks: seq<Key>, f: T -> int)
    requires Distinct(ks)
    requires forall r :: r in rows ==> key(r) in ks
    ensures GroupSum(rows, key, ks, f) == Sum(rows, f)
    decreases |ks|
  {
    if ks == [] {
      assert rows == [];
    } else {
      var k0 := ks[0];
      var rest := Others(rows, key, k0);
      assert forall j :: 0 <= j < |ks| - 1 ==> ks[1..][j] == ks[j + 1] && ks[j + 1] != k0;
      assert k0 !in ks[1..];
      assert Distinct(ks[1..]) by {
        forall i, j | 0 <= i < j < |ks[1..]| ensures ks[1..][i] != ks[1..][j] {
          assert ks[i + 1] != ks[j + 1];
        }
      }
      forall r | r in rest ensures key(r) in ks[1..] {
        assert key(r) in ks && key(r) != k0;
        var j :| 0 <= j < |ks| && ks[j] == key(r);
        assert j != 0;
        assert ks[1..][j - 1] == key(r);
      }
      GroupSumTotal(rest, key, ks[1..], f);
      GroupSumOthers(rows, key, k0, ks[1..], f);
      SumSplit(rows, key, k0, f);
    }
  }

  lemma {:induction false} OutputSumIsGroupSum<T(!new), U(!new)>(rows: seq<T>, key: T -> Key, ks: seq<Key>, f: T -> int, out: seq<U>, g: U -> int)
    requires |out| == |ks|
    requires forall i :: 0 <= i < |out| ==> g(out[i]) == Sum(Members(rows, key, ks[i]), f)
    ensures Sum(out, g) == GroupSum(rows, key, ks, f)
  {
    if out != [] {
      OutputSumIsGroupSum(rows, key, ks[1..], f, out[1..], g);
    }
  }

  /**
    Totals are conserved across groups: if each output row's column g holds
    the sum of column f over its group, the output column sums to the input
    column's total.
   */
  lemma GroupByConservesSum<T(!new), U(!new)>(rows: seq<T>, key: T -> Key, f: T -> int, out: seq<U>, g: U -> int)
    requires |out| == |GroupBy(rows, key)|
    requires forall i :: 0 <= i < |out| ==> g(out[i]) == Sum(GroupBy(rows, key)[i].members, f)
    ensures Sum(out, g) == Sum(rows, f)
  {
    var ks := SortedKeys(rows, key);
    var gs := GroupBy(rows, key);
    assert forall i :: 0 <= i < |gs| ==> gs[i].key == ks[i];
    OutputSumIsGroupSum(rows, key, ks, f, out, g);
    SortedIsDistinct(ks);
    forall r | r in rows ensures key(r) in ks {
      assert Observed(rows, key, key(r));
    }
    GroupSumTotal(rows, key, ks, f);
  }

  // ---------------------------------------------------------------------------
  // Facts about sums and row masks

  /** Columns that add up row by row add up in total. */
  lemma {:induction false} SumAdd<T(!new)>(s: seq<T>, f: T -> int, g: T -> int, h: T -> int)
    requires forall x :: x in s ==> f(x) + g(x) == h(x)
    ensures Sum(s, f) + Sum(s, g) == Sum(s, h)
  {
    if s != [] {
      assert s[0] in s;
      assert forall x :: x in s[1..] ==> x in s;
      SumAdd(s[1..], f, g, h);
    }
  }

  /** A non-negative column sums to at least each of its entries. */
  lemma {:induction false} SumBoundsEntry<T(!new)>(s: seq<T>, f: T -> int, x: T)
    requires forall y :: y in s ==> f(y) >= 0
    requires x in s
    ensures 0 <= f(x) <= Sum(s, f)
  {
    assert forall y :: y in s[1..] ==> y in s;
    if s[0] != x {
      SumBoundsEntry(s[1..], f, x);
    } else {
      SumNonneg(s[1..], f);
    }
  }

  /**
    Rows that correspond one to one, with equal keys and equal values,
    give groups of equal size and equal sums.
   */
  lemma {:induction false} MembersCorrespond<T(!new), U(!new)>(s: seq<T>, t: seq<U>, ks: T -> Key, kt: U -> Key, fs: T -> int, ft: U -> int, k: Key)
    requires |s| == |t|
    requires forall i :: 0 <= i < |s| ==> ks(s[i]) == kt(t[i]) && fs(s[i]) == ft(t[i])
    ensures |Members(s, ks, k)| == |Members(t, kt, k)|
    ensures Sum(Members(s, ks, k), fs) == Sum(Members(t, kt, k), ft)
  {
    if s != [] {
      assert forall i :: 0 <= i < |s[1..]| ==> s[1..][i] == s[i + 1] && t[1..][i] == t[i + 1];
      MembersCorrespond(s[1..], t[1..], ks, kt, fs, ft, k);
      var ms, mt := Members(s[1..], ks, k), Members(t[1..], kt, k);
      if ks(s[0]) == k {
        assert Members(s, ks, k) == [s[0]] + ms;
        assert Members(t, kt, k) == [t[0]] + mt;
        assert ([s[0]] + ms)[1..] == ms && ([t[0]] + mt)[1..] == mt;
      } else {
        assert Members(s, ks, k) == ms && Members(t, kt, k) == mt;
      }
    }
  }

  /** The real-valued counterpart of MembersCorrespond. */
  lemma {:induction false} MembersCorrespondReal<T(!new), U(!new)>(s: seq<T>, t: seq<U>, ks: T -> Key, kt: U -> Key, fs: T -> real, ft: U -> real, k: Key)
    requires |s| == |t|
    requires forall i :: 0 <= i < |s| ==> ks(s[i]) == kt(t[i]) && fs(s[i]) == ft(t[i])
    ensures SumReal(Members(s, ks, k), fs) == SumReal(Members(t, kt, k), ft)
  {
    if s != [] {
      assert forall i :: 0 <= i < |s[1..]| ==> s[1..][i] == s[i + 1] && t[1..][i] == t[i + 1];
      MembersCorrespondReal(s[1..], t[1..], ks, kt, fs, ft, k);
      var ms, mt := Members(s[1..], ks, k), Members(t[1..], kt, k);
      if ks(s[0]) == k {
        assert Members(s, ks, k) == [s[0]] + ms;
        assert Members(t, kt, k) == [t[0]] + mt;
        assert ([s[0]] + ms)[1..] == ms && ([t[0]] + mt)[1..] == mt;
      } else {
        assert Members(s, ks, k) == ms && Members(t, kt, k) == mt;
      }
    }
  }

  /** Every row stands in relation `before` to every later row. */
  ghost predicate Ordered<T>(s: seq<T>, before: (T, T) -> bool)
  {
    forall i, j :: 0 <= i < j < |s| ==> before(s[i], s[j])
  }

  lemma OrderedTail<T>(s: seq<T>, before: (T, T) -> bool)
    requires s != [] && Ordered(s, before)
    ensures Ordered(s[1..], before)
  {
    var tail := s[1..];
    forall i, j | 0 <= i < j < |tail| ensures before(tail[i], tail[j]) {
      assert tail[i] == s[i + 1] && tail[j] == s[j + 1];
    }
  }

  lemma OrderedCons<T>(x: T, rest: seq<T>, before: (T, T) -> bool)
    requires Ordered(rest, before)
    requires forall y :: y in rest ==> before(x, y)
    ensures Ordered([x] + rest, before)
  {
    var w := [x] + rest;
    forall i, j | 0 <= i < j < |w| ensures before(w[i], w[j]) {
      if i == 0 {
        assert w[j] == rest[j - 1];
        assert w[j] in rest;
      } else {
        assert w[i] == rest[i - 1] && w[j] == rest[j - 1];
      }
    }
  }

  lemma HeadBeforeRest<T(!new)>(s: seq<T>, p: T -> bool, before: (T, T) -> bool)
    requires s != [] && Ordered(s, before)
    ensures forall x :: x in Where(s[1..], p) ==> before(s[0], x)
  {
    var tail := s[1..];
    forall x | x in Where(tail, p) ensures before(s[0], x) {
      assert x in tail;
      var m :| 0 <= m < |tail| && tail[m] == x;
      assert s[m + 1] == x;
    }
  }

  /** A row mask keeps every relation that held between earlier and later rows. */
  lemma {:induction false} WhereKeepsOrder<T(!new)>(s: seq<T>, p: T -> bool, before: (T, T) -> bool)
    requires Ordered(s, before)
    ensures Ordered(Where(s, p), before)
  {
    if s != [] {
      OrderedTail(s, before);
      WhereKeepsOrder(s[1..], p, before);
      if p(s[0]) {
        HeadBeforeRest(s, p, before);
        OrderedCons(s[0], Where(s[1..], p), before);
        assert Where(s, p) == [s[0]] + Where(s[1..], p);
      } else {
        assert Where(s, p) == Where(s[1..], p);
      }
    }
  }

  /** s is obtained from t by deleting rows. */
  ghost predicate Subsequence<T(!new)>(s: seq<T>, t: seq<T>)
    decreases |t|
  {
    if s == [] then true
    else if t == [] then false
    else (s[0] == t[0] && Subsequence(s[1..], t[1..])) || Subsequence(s, t[1..])
  }

  lemma {:induction false} WhereIsSubsequence<T(!new)>(s: seq<T>, p: T -> bool)
    ensures Subsequence(Where(s, p), s)
  {
    if s != [] {
      WhereIsSubsequence(s[1..], p);
      if p(s[0]) {
        assert Where(s, p)[1..] == Where(s[1..], p);
      } else {
        assert Where(s, p) == Where(s[1..], p);
      }
    }
  }

  /** A mask keeps every copy of a row it selects and no copy of a row it rejects. */
  lemma {:induction false} WhereCounts<T(!new)>(s: seq<T>, p: T -> bool, x: T)
    ensures multiset(Where(s, p))[x] == if p(x) then multiset(s)[x] else 0
  {
    if s != [] {
      WhereCounts(s[1..], p, x);
      assert s == [s[0]] + s[1..];
    }
  }

  /** A mask that every row satisfies keeps the rows as they are. */
  lemma {:induction false} WhereAll<T(!new)>(s: seq<T>, p: T -> bool)
    requires forall x :: x in s ==> p(x)
    ensures Where(s, p) == s
  {
    if s != [] {
      assert forall x :: x in s[1..] ==> x in s;
      WhereAll(s[1..], p);
      assert s[0] in s;
      assert s == [s[0]] + s[1..];
    }
  }

  lemma {:induction false} SumNonneg<T(!new)>(s: seq<T>, f: T -> int)
    requires forall x :: x in s ==> f(x) >= 0
    ensures Sum(s, f) >= 0
  {
    if s != [] {
      assert s[0] in s;
      assert forall x :: x in s[1..] ==> x in s;
      SumNonneg(s[1..], f);
    }
  }

  /** A column that holds the same value c on every row sums to c times the row count. */
  lemma {:induction false} SumConst<T(!new)>(s: seq<T>, f: T -> int, c: int)
    requires forall x :: x in s ==> f(x) == c
    ensures Sum(s, f) == c * |s|
  {
    if s != [] {
      assert s[0] in s;
      assert forall x :: x in s[1..] ==> x in s;
      SumConst(s[1..], f, c);
    }
  }

  /** The mean of a column that holds the same value c on every row is c. */
  lemma MeanConst<T(!new)>(s: seq<T>, f: T -> int, c: int)
    requires s != []
    requires forall x :: x in s ==> f(x) == c
    ensures Mean(s, f) == c as real
  {
    SumConst(s, f, c);
    var n := |s| as real;
    assert Sum(s, f) as real == c as real * n;
    assert (c as real * n) / n == c as real;
  }

  /** A key is observed exactly when its group is non-empty. */
  lemma ObservedIffMembers<T(!new)>(rows: seq<T>, key: T -> Key, k: Key)
    ensures Observed(rows, key, k) <==> Members(rows, key, k) != []
  {
    if Members(rows, key, k) != [] {
      assert Members(rows, key, k)[0] in Members(rows, key, k);
    }
  }

  /** A mask and its complement split the rows between them, each row exactly once. */
  lemma {:induction false} WherePartition<T(!new)>(s: seq<T>, p: T -> bool, q: T -> bool)
    requires forall x :: q(x) == !p(x)
    ensures multiset(Where(s, p)) + multiset(Where(s, q)) == multiset(s)
  {
    if s != [] {
      var x, tail := s[0], s[1..];
      WherePartition(tail, p, q);
      assert s == [x] + tail;
      assert multiset(s) == multiset{x} + multiset(tail);
      if p(x) {
        assert Where(s, p) == [x] + Where(tail, p);
        assert Where(s, q) == Where(tail, q);
        assert multiset(Where(s, p)) == multiset{x} + multiset(Where(tail, p));
      } else {
        assert Where(s, p) == Where(tail, p);
        assert Where(s, q) == [x] + Where(tail, q);
        assert multiset(Where(s, q)) == multiset{x} + multiset(Where(tail, q));
      }
    }
  }

  /** A mask that holds for no row keeps nothing. */
  lemma {:induction false} WhereNone<T(!new)>(s: seq<T>, p: T -> bool)
    requires forall i :: 0 <= i < |s| ==> !p(s[i])
    ensures Where(s, p) == []
  {
    if s != [] {
      assert forall i :: 0 <= i < |s[1..]| ==> s[1..][i] == s[i + 1];
      WhereNone(s[1..], p);
    }
  }
}
