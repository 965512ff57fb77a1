/** Sequence helpers shared by the page-order and file-list models. */
module Seqs {
  import opened Wrappers

  /** The elements of `s` that are in `sel`, in their order in `s`. */
  function Within<T>(s: seq<T>, sel: set<T>): seq<T>
  {
    if s == [] then []
    else Within(s[..|s| - 1], sel) + (if s[|s| - 1] in sel then [s[|s| - 1]] else [])
  }

  /** The elements of `s` that are not in `sel`, in their order in `s`. */
  function Without<T>(s: seq<T>, sel: set<T>): seq<T>
  {
    if s == [] then []
    else Without(s[..|s| - 1], sel) + (if s[|s| - 1] in sel then [] else [s[|s| - 1]])
  }

  predicate Distinct<T(==)>(s: seq<T>)
  {
    forall i, j :: 0 <= i < j < |s| ==> s[i] != s[j]
  }

  predicate StrictlyIncreasing(s: seq<int>)
  {
    forall i, j :: 0 <= i < j < |s| ==> s[i] < s[j]
  }

  /** [0, 1, ..., n-1] */
  function Iota(n: nat): (r: seq<nat>)
    ensures |r| == n
    ensures forall i :: 0 <= i < n ==> r[i] == i
  {
    if n == 0 then [] else Iota(n - 1) + [n - 1]
  }

  /** The members of `s` below `bound`, in ascending order: Python's `sorted(s)` for a set of indices. */
  function Ascending(s: set<nat>, bound: nat): (r: seq<nat>)
    ensures StrictlyIncreasing(r)
    ensures forall x :: x in r <==> x in s && x < bound
    ensures forall k :: 0 <= k < |r| ==> r[k] < bound
  {
    if bound == 0 then []
    else
      var prefix := Ascending(s, bound - 1);
      prefix + (if bound - 1 in s then [bound - 1] else [])
  }

  /** The positions k of `s` with s[k] in sel, ascending. */
  function Positions<T>(s: seq<T>, sel: set<T>): (r: seq<nat>)
    ensures StrictlyIncreasing(r)
    ensures forall k: nat :: k in r <==> k < |s| && s[k] in sel
    ensures forall j :: 0 <= j < |r| ==> r[j] < |s|
  {
    if s == [] then []
    else Positions(s[..|s| - 1], sel) + (if s[|s| - 1] in sel then [|s| - 1] else [])
  }

  function Swap<T>(s: seq<T>, i: nat, j: nat): (r: seq<T>)
    requires i < |s| && j < |s|
    ensures |r| == |s| && r[i] == s[j] && r[j] == s[i]
    ensures forall k :: 0 <= k < |s| && k != i && k != j ==> r[k] == s[k]
    ensures multiset(r) == multiset(s)
  {
    s[i := s[j]][j := s[i]]
  }

  lemma {:induction false} WithinAppend<T>(a: seq<T>, b: seq<T>, sel: set<T>)
    ensures Within(a + b, sel) == Within(a, sel) + Within(b, sel)
    ensures Without(a + b, sel) == Without(a, sel) + Without(b, sel)
    decreases |b|
  {
    if b == [] {
      assert a + b == a;
    } else {
      var b' := b[..|b| - 1];
      assert (a + b)[..|a + b| - 1] == a + b';
      WithinAppend(a, b', sel);
    }
  }

  /** Splitting a sequence by membership loses and invents nothing. */
  lemma {:induction false} SplitMultiset<T>(s: seq<T>, sel: set<T>)
    ensures multiset(Within(s, sel)) + multiset(Without(s, sel)) == multiset(s)
  {
    if s != [] {
      SplitMultiset(s[..|s| - 1], sel);
      assert s == s[..|s| - 1] + [s[|s| - 1]];
    }
  }

  lemma {:induction false} WithinAll<T>(s: seq<T>, sel: set<T>)
    requires forall k :: 0 <= k < |s| ==> s[k] in sel
    ensures Within(s, sel) == s && Without(s, sel) == []
  {
    if s != [] {
      WithinAll(s[..|s| - 1], sel);
    }
  }

  lemma {:induction false} WithinNone<T>(s: seq<T>, sel: set<T>)
    requires forall k :: 0 <= k < |s| ==> s[k] !in sel
    ensures Within(s, sel) == [] && Without(s, sel) == s
  {
    if s != [] {
      WithinNone(s[..|s| - 1], sel);
    }
  }

  lemma {:induction false} WithinMembers<T>(s: seq<T>, sel: set<T>)
    ensures forall x :: x in Within(s, sel) <==> x in s && x in sel
    ensures forall x :: x in Without(s, sel) <==> x in s && x !in sel
  {
    if s != [] {
      WithinMembers(s[..|s| - 1], sel);
      assert s == s[..|s| - 1] + [s[|s| - 1]];
    }
  }

  lemma {:induction false} DistinctMultiset<T>(s: seq<T>)
    requires forall x :: multiset(s)[x] <= 1
    ensures Distinct(s)
  {
    forall i, j | 0 <= i < j < |s|
      ensures s[i] != s[j]
    {
      assert s == s[..i] + [s[i]] + s[i + 1..j] + [s[j]] + s[j + 1..];
      assert multiset(s) == multiset(s[..i]) + multiset{s[i]} + multiset(s[i + 1..j]) + multiset{s[j]} + multiset(s[j + 1..]);
      assert multiset(s)[s[i]] >= 1 + (if s[j] == s[i] then 1 else 0);
    }
  }

  lemma {:induction false} IotaMultiset(n: nat)
    ensures forall x: nat :: multiset(Iota(n))[x] == (if x < n then 1 else 0)
  {
    if n > 0 {
      IotaMultiset(n - 1);
      assert Iota(n) == Iota(n - 1) + [n - 1];
      forall x: nat
        ensures multiset(Iota(n))[x] == (if x < n then 1 else 0)
      {
        assert multiset(Iota(n))[x] == multiset(Iota(n - 1))[x] + multiset([n - 1])[x];
      }
    }
  }

  /** A sequence with the same elements, counted, as [0..n) lists each index once. */
  lemma PermutationOfIota(s: seq<nat>, n: nat)
    requires multiset(s) == multiset(Iota(n))
    ensures Distinct(s) && |s| == n
    ensures forall x: nat :: x in s <==> x < n
  {
    IotaMultiset(n);
    DistinctMultiset(s);
    assert |s| == |multiset(s)| == |multiset(Iota(n))| == n;
    forall x: nat
      ensures x in s <==> x < n
    {
      assert x in s <==> x in multiset(s);
      assert multiset(Iota(n))[x] == (if x < n then 1 else 0);
    }
  }

  /** Two ascending sequences with the same members are the same sequence. */
  lemma {:induction false} AscendingUnique(a: seq<int>, b: seq<int>)
    requires StrictlyIncreasing(a) && StrictlyIncreasing(b)
    requires forall x :: x in a <==> x in b
    ensures a == b
    decreases |a|
  {
    if a != [] {
      assert a[0] in a;
    }
    if b != [] {
      assert b[0] in b;
    }
    if a != [] && b != [] {
      SameHead(a, b);
      SameTail(a, b);
      AscendingUnique(a[1..], b[1..]);
      assert a == [a[0]] + a[1..];
      assert b == [b[0]] + b[1..];
    }
  }

  lemma SameHead(a: seq<int>, b: seq<int>)
    requires StrictlyIncreasing(a) && StrictlyIncreasing(b) && a != [] && b != []
    requires forall x :: x in a <==> x in b
    ensures a[0] == b[0]
  {
    assert a[0] in a && b[0] in b;
    var i :| 0 <= i < |a| && a[i] == b[0];
    var j :| 0 <= j < |b| && b[j] == a[0];
    assert a[0] <= a[i] && b[0] <= b[j];
  }

  lemma SameTail(a: seq<int>, b: seq<int>)
    requires StrictlyIncreasing(a) && StrictlyIncreasing(b) && a != [] && b != [] && a[0] == b[0]
    requires forall x :: x in a <==> x in b
    ensures forall x :: x in a[1..] <==> x in b[1..]
  {
    forall x | x in a[1..]
      ensures x in b[1..]
    {
      var k :| 1 <= k < |a| && a[k] == x;
      assert a[0] < x && x in a;
      var m :| 0 <= m < |b| && b[m] == x;
      assert b[1..][m - 1] == x;
    }
    forall x | x in b[1..]
      ensures x in a[1..]
    {
      var k :| 1 <= k < |b| && b[k] == x;
      assert b[0] < x && x in b;
      var m :| 0 <= m < |a| && a[m] == x;
      assert a[1..][m - 1] == x;
    }
  }

  /** Appending a value above every entry keeps a sequence ascending. */
  lemma AppendAbove(prev: seq<int>, m: int)
    requires StrictlyIncreasing(prev)
    requires forall k :: 0 <= k < |prev| ==> prev[k] < m
    ensures StrictlyIncreasing(prev + [m])
  {
    var r := prev + [m];
    forall i, j | 0 <= i < j < |r|
      ensures r[i] < r[j]
    {
      if j < |prev| {
        assert r[i] == prev[i] && r[j] == prev[j];
      }
    }
  }

  /** Filtering [0..n) is filtering [0..n-1), then the last index. */
  lemma IotaStep(n: nat, sel: set<nat>)
    requires n > 0
    ensures var m: nat := n - 1; Within(Iota(n), sel) == Within(Iota(m), sel) + (if m in sel then [m] else [])
    ensures var m: nat := n - 1; Without(Iota(n), sel) == Without(Iota(m), sel) + (if m in sel then [] else [m])
  {
    var s := Iota(n);
    var init, last := s[..|s| - 1], s[|s| - 1];
    assert init == Iota(n - 1) && last == n - 1;
    assert Within(s, sel) == Within(init, sel) + (if last in sel then [last] else []);
    assert Without(s, sel) == Without(init, sel) + (if last in sel then [] else [last]);
  }

  /** `r` lists, ascending, the indices below `n` whose membership in `sel` is `inSel`. */
  ghost predicate IndexFilter(r: seq<nat>, n: nat, sel: set<nat>, inSel: bool)
  {
    StrictlyIncreasing(r) && (forall x: nat :: x in r <==> x < n && (x in sel) == inSel)
  }

  /** Index `m` is listed after every smaller index exactly when its membership matches. */
  lemma FilterStep(prev: seq<nat>, m: nat, sel: set<nat>, inSel: bool)
    requires IndexFilter(prev, m, sel, inSel)
    ensures IndexFilter(prev + (if (m in sel) == inSel then [m] else []), m + 1, sel, inSel)
  {
    var r := prev + (if (m in sel) == inSel then [m] else []);
    if (m in sel) == inSel {
      assert forall k :: 0 <= k < |prev| ==> prev[k] in prev;
      AppendAbove(prev, m);
    }
    forall x: nat
      ensures x in r <==> x < m + 1 && (x in sel) == inSel
    {
      if x != m {
        assert x in r <==> x in prev;
      } else {
        assert x !in prev;
      }
    }
  }

  /** `[i for i in range(n) if i not in sel]` is ascending and holds exactly the indices below `n` outside `sel`. */
  lemma {:induction false} WithoutIota(n: nat, sel: set<nat>)
    ensures IndexFilter(Without(Iota(n), sel), n, sel, false)
  {
    if n > 0 {
      var m: nat := n - 1;
      WithoutIota(m, sel);
      IotaStep(n, sel);
      FilterStep(Without(Iota(m), sel), m, sel, false);
    }
  }

  /** `[i for i in range(n) if i in sel]` is ascending and holds exactly the indices below `n` in `sel`. */
  lemma {:induction false} WithinIota(n: nat, sel: set<nat>)
    ensures IndexFilter(Within(Iota(n), sel), n, sel, true)
  {
    if n > 0 {
      var m: nat := n - 1;
      WithinIota(m, sel);
      IotaStep(n, sel);
      FilterStep(Within(Iota(m), sel), m, sel, true);
    }
  }

  /** The entries of `s` that satisfy `p`, in order. */
  function Keep<T>(s: seq<T>, p: T -> bool): (r: seq<T>)
    ensures |r| <= |s|
  {
    if s == [] then [] else Keep(s[..|s| - 1], p) + (if p(s[|s| - 1]) then [s[|s| - 1]] else [])
  }

  /** `Keep` keeps exactly the entries satisfying `p`. */
  lemma {:induction false} KeepMembers<T>(s: seq<T>, p: T -> bool)
    ensures forall x :: x in Keep(s, p) <==> x in s && p(x)
  {
    if s != [] {
      KeepMembers(s[..|s| - 1], p);
      assert s == s[..|s| - 1] + [s[|s| - 1]];
    }
  }

  /** With a complementary `q`, the entries kept by `p` and by `q` split `s`. */
  lemma {:induction false} KeepPartition<T>(s: seq<T>, p: T -> bool, q: T -> bool)
    requires forall x :: q(x) == !p(x)
    ensures multiset(Keep(s, p)) + multiset(Keep(s, q)) == multiset(s)
  {
    if s != [] {
      var init := s[..|s| - 1];
      var x := s[|s| - 1];
      KeepPartition(init, p, q);
      assert s == init + [x];
      assert multiset(s) == multiset(init) + multiset{x};
      assert q(x) == !p(x);
    }
  }

  /** When nothing satisfies `p`, a complementary `q` keeps everything. */
  lemma {:induction false} KeepNone<T>(s: seq<T>, p: T -> bool, q: T -> bool)
    requires forall x :: q(x) == !p(x)
    requires Keep(s, p) == []
    ensures Keep(s, q) == s
  {
    if s != [] {
      var init := s[..|s| - 1];
      var x := s[|s| - 1];
      assert q(x) == !p(x);
      assert Keep(init, p) == [];
      KeepNone(init, p, q);
      assert s == init + [x];
    }
  }

  /** The values `f` gives for the entries of `s`, in order, entries it maps to None left out. */
  function Collect<S, T>(s: seq<S>, f: S -> Option<T>): (r: seq<T>)
    ensures |r| <= |s|
  {
    if s == [] then []
    else
      var prev := Collect(s[..|s| - 1], f);
      match f(s[|s| - 1])
      case None => prev
      case Some(t) => prev + [t]
  }

  /** Collecting over one more entry appends its value, if any. */
  lemma CollectAppend<S, T>(s: seq<S>, f: S -> Option<T>, i: nat)
    requires i < |s|
    ensures Collect(s[..i + 1], f) == Collect(s[..i], f) + (if f(s[i]).Some? then [f(s[i]).value] else [])
  {
    assert s[..i + 1][..i] == s[..i];
  }

  /** Every entry that `f` maps to a value has that value in the collection. */
  lemma {:induction false} CollectListed<S, T>(s: seq<S>, f: S -> Option<T>, i: nat)
    requires i < |s| && f(s[i]).Some?
    ensures f(s[i]).value in Collect(s, f)
  {
    var last := |s| - 1;
    if i < last {
      assert s[..last][i] == s[i];
      CollectListed(s[..last], f, i);
    }
  }

  /** Every collected value comes from an entry of `s`. */
  lemma {:induction false} CollectFrom<S, T>(s: seq<S>, f: S -> Option<T>, t: T)
    requires t in Collect(s, f)
    ensures exists i :: 0 <= i < |s| && f(s[i]) == Some(t)
  {
    var init := s[..|s| - 1];
    if t in Collect(init, f) {
      CollectFrom(init, f, t);
      var i :| 0 <= i < |init| && f(init[i]) == Some(t);
      assert s[i] == init[i];
    } else {
      assert f(s[|s| - 1]) == Some(t);
    }
  }
}
