/**
 * The page order of the thumbnail view as plain values: the display order is
 * a sequence of original page indices, the selection a set of page indices.
 * Each rearrangement the view offers is defined here and its properties proved;
 * the view's methods are proved to compute them.
 */
module PageOrder {
  import opened Seqs

  /** The display order holds every original page index below `n` exactly once. */
  predicate IsOrderOf(s: seq<nat>, n: nat)
  {
    multiset(s) == multiset(Iota(n))
  }

  /** Every entry of a display order is one of its pages. */
  lemma EntryBelow(s: seq<nat>, n: nat, i: nat)
    requires IsOrderOf(s, n) && i < |s|
    ensures s[i] < n
  {
    PermutationOfIota(s, n);
    assert s[i] in s;
  }

  // ----- moving the selection one step up or down -----

  /** The first position of the run of selected entries that ends at `j`. */
  function RunStart(s: seq<nat>, sel: set<nat>, j: nat): (a: nat)
    requires j < |s|
    ensures a <= j
    ensures forall i :: a <= i < j ==> s[i] in sel
    ensures a > 0 ==> s[a - 1] !in sel
    ensures s[j] in sel && s[0] !in sel ==> a > 0
  {
    if j > 0 && s[j - 1] in sel then RunStart(s, sel, j - 1) else j
  }

  /** The last position of the run of selected entries that starts at `j`. */
  function RunEnd(s: seq<nat>, sel: set<nat>, j: nat): (e: nat)
    requires j < |s|
    ensures j <= e < |s|
    ensures forall i :: j < i <= e ==> s[i] in sel
    ensures e + 1 < |s| ==> s[e + 1] !in sel
    ensures s[j] in sel && s[|s| - 1] !in sel ==> e + 1 < |s|
    decreases |s| - j
  {
    if j + 1 < |s| && s[j + 1] in sel then RunEnd(s, sel, j + 1) else j
  }

  /**
   * The entry at position `j` after every selected entry has moved up one
   * place: a selected entry from below, the entry that stood just above a run
   * of selected entries now at the run's end, or the entry that was there.
   */
  function UpAt(s: seq<nat>, sel: set<nat>, j: nat): nat
    requires j < |s| && s[0] !in sel
  {
    if j + 1 < |s| && s[j + 1] in sel then s[j + 1]
    else if s[j] in sel then s[RunStart(s, sel, j) - 1]
    else s[j]
  }

  /** The mirror image of `UpAt`: every selected entry moves down one place. */
  function DownAt(s: seq<nat>, sel: set<nat>, j: nat): nat
    requires j < |s| && s[|s| - 1] !in sel
  {
    if j > 0 && s[j - 1] in sel then s[j - 1]
    else if s[j] in sel then s[RunEnd(s, sel, j) + 1]
    else s[j]
  }

  /** `r` is `s` with each selected entry moved up one place (`move_selected_up`). */
  predicate MovedUp(s: seq<nat>, sel: set<nat>, r: seq<nat>)
    requires s != [] && s[0] !in sel
  {
    |r| == |s| && forall j :: 0 <= j < |s| ==> r[j] == UpAt(s, sel, j)
  }

  /** `r` is `s` with each selected entry moved down one place (`move_selected_down`). */
  predicate MovedDown(s: seq<nat>, sel: set<nat>, r: seq<nat>)
    requires s != [] && s[|s| - 1] !in sel
  {
    |r| == |s| && forall j :: 0 <= j < |s| ==> r[j] == DownAt(s, sel, j)
  }

  /** No selected position lies strictly between two consecutive entries of an ascending position list. */
  lemma Gap(s: seq<nat>, sel: set<nat>, ps: seq<nat>, k: nat, x: nat)
    requires StrictlyIncreasing(ps)
    requires forall y: nat :: y in ps <==> y < |s| && s[y] in sel
    requires k <= |ps| && (k < |ps| ==> x < ps[k]) && (k > 0 ==> ps[k - 1] < x) && x < |s|
    ensures s[x] !in sel
  {
    forall m | 0 <= m < |ps|
      ensures ps[m] != x
    {
      if m < k {
        assert ps[m] <= ps[k - 1];
      } else {
        assert ps[k] <= ps[m];
      }
    }
  }

  /**
   * The state of the ascending swap loop of `move_selected_up` after the
   * first `k` selected positions: everything above the last one handled is
   * final, the entry carried down sits at that position, the rest is untouched.
   */
  predicate UpLoop(s: seq<nat>, sel: set<nat>, ps: seq<nat>, k: nat, cur: seq<nat>)
    requires s != [] && s[0] !in sel
    requires k <= |ps| && forall i :: 0 <= i < |ps| ==> ps[i] < |s|
  {
    var last: int := if k == 0 then -1 else ps[k - 1];
    |cur| == |s| &&
    (forall j :: 0 <= j < |s| && j < last ==> cur[j] == UpAt(s, sel, j)) &&
    (k > 0 && s[ps[k - 1]] in sel ==> cur[ps[k - 1]] == s[RunStart(s, sel, ps[k - 1]) - 1]) &&
    (forall j :: last < j < |s| ==> cur[j] == s[j])
  }

  /** `ps` lists exactly the selected positions of `s`, ascending, and the first entry is not selected. */
  predicate UpPositions(s: seq<nat>, sel: set<nat>, ps: seq<nat>)
  {
    s != [] && s[0] !in sel && StrictlyIncreasing(ps) &&
    (forall i :: 0 <= i < |ps| ==> ps[i] < |s|) &&
    (forall y :: 0 <= y < |s| ==> (y in ps <==> s[y] in sel))
  }

  /** One iteration of the ascending swap loop keeps `UpLoop`. */
  lemma UpStep(s: seq<nat>, sel: set<nat>, ps: seq<nat>, k: nat, cur: seq<nat>)
    requires UpPositions(s, sel, ps) && k < |ps|
    requires UpLoop(s, sel, ps, k, cur)
    ensures 1 <= ps[k] < |cur|
    ensures UpLoop(s, sel, ps, k + 1, Swap(cur, ps[k], ps[k] - 1))
  {
    var p := ps[k];
    assert p in ps;
    var last: int := if k == 0 then -1 else ps[k - 1];
    if k > 0 {
      assert ps[k - 1] < p;
      assert ps[k - 1] in ps;
    }
    var nxt := Swap(cur, p, p - 1);
    forall j | 0 <= j < |s| && j < p
      ensures nxt[j] == UpAt(s, sel, j)
    {
      if j == p - 1 {
      } else if j == last {
        if j + 1 < p {
          Gap(s, sel, ps, k, j + 1);
        }
      } else if j > last {
        Gap(s, sel, ps, k, j);
        Gap(s, sel, ps, k, j + 1);
      }
    }
    if p - 1 > last {
      Gap(s, sel, ps, k, p - 1);
    }
  }

  /** When the loop has handled every selected position, the order is `MovedUp`. */
  lemma UpDone(s: seq<nat>, sel: set<nat>, ps: seq<nat>, cur: seq<nat>)
    requires UpPositions(s, sel, ps)
    requires UpLoop(s, sel, ps, |ps|, cur)
    ensures MovedUp(s, sel, cur)
  {
    var last: int := if ps == [] then -1 else ps[|ps| - 1];
    assert forall m :: 0 <= m < |ps| ==> ps[m] <= last;
  }

  /** `ps` lists exactly the selected positions of `s`, ascending, and the last entry is not selected. */
  predicate DownPositions(s: seq<nat>, sel: set<nat>, ps: seq<nat>)
  {
    s != [] && s[|s| - 1] !in sel && StrictlyIncreasing(ps) &&
    (forall i :: 0 <= i < |ps| ==> ps[i] < |s|) &&
    (forall y :: 0 <= y < |s| ==> (y in ps <==> s[y] in sel))
  }

  /**
   * The state of the descending swap loop of `move_selected_down` once the
   * selected positions ps[k..] are handled: everything below the first one
   * handled is final, the entry carried up sits at that position, the rest is untouched.
   */
  predicate DownLoop(s: seq<nat>, sel: set<nat>, ps: seq<nat>, k: nat, cur: seq<nat>)
    requires s != [] && s[|s| - 1] !in sel
    requires k <= |ps| && forall i :: 0 <= i < |ps| ==> ps[i] < |s|
  {
    var first := if k == |ps| then |s| else ps[k];
    |cur| == |s| &&
    (forall j :: first < j < |s| ==> cur[j] == DownAt(s, sel, j)) &&
    (k < |ps| && s[ps[k]] in sel ==> cur[ps[k]] == s[RunEnd(s, sel, ps[k]) + 1]) &&
    (forall j :: 0 <= j < first ==> cur[j] == s[j])
  }

  /** One iteration of the descending swap loop keeps `DownLoop`. */
  lemma DownStep(s: seq<nat>, sel: set<nat>, ps: seq<nat>, k: nat, cur: seq<nat>)
    requires DownPositions(s, sel, ps) && 0 < k <= |ps|
    requires DownLoop(s, sel, ps, k, cur)
    ensures ps[k - 1] + 1 < |cur|
    ensures DownLoop(s, sel, ps, k - 1, Swap(cur, ps[k - 1], ps[k - 1] + 1))
  {
    var p := ps[k - 1];
    assert p in ps;
    var first := if k == |ps| then |s| else ps[k];
    if k < |ps| {
      assert p < ps[k];
      assert ps[k] in ps;
    }
    var nxt := Swap(cur, p, p + 1);
    forall j | p < j < |s|
      ensures nxt[j] == DownAt(s, sel, j)
    {
      if j == p + 1 {
      } else if j == first {
        if p < j - 1 {
          Gap(s, sel, ps, k, j - 1);
        }
      } else if j < first {
        Gap(s, sel, ps, k, j);
        Gap(s, sel, ps, k, j - 1);
      }
    }
    if p + 1 < first {
      Gap(s, sel, ps, k, p + 1);
    }
  }

  /** The descending swap loop's invariant, with the count of positions still to handle and the entries kept. */
  predicate DownState(s: seq<nat>, sel: set<nat>, ps: seq<nat>, k: nat, cur: seq<nat>)
    requires DownPositions(s, sel, ps)
  {
    k <= |ps| && DownLoop(s, sel, ps, k, cur) && multiset(cur) == multiset(s)
  }

  /** Before the loop nothing is handled and the order is the original. */
  lemma DownStart(s: seq<nat>, sel: set<nat>, ps: seq<nat>)
    requires DownPositions(s, sel, ps)
    ensures DownState(s, sel, ps, |ps|, s)
  {
  }

  /** One iteration of the descending swap loop keeps `DownState`. */
  lemma DownStateStep(s: seq<nat>, sel: set<nat>, ps: seq<nat>, k: nat, cur: seq<nat>)
    requires DownPositions(s, sel, ps) && 0 < k
    requires DownState(s, sel, ps, k, cur)
    ensures ps[k - 1] + 1 < |cur|
    ensures DownState(s, sel, ps, k - 1, Swap(cur, ps[k - 1], ps[k - 1] + 1))
  {
    DownStep(s, sel, ps, k, cur);
  }

  /** When the loop has handled every selected position, the order is `MovedDown`. */
  lemma DownDone(s: seq<nat>, sel: set<nat>, ps: seq<nat>, cur: seq<nat>)
    requires DownPositions(s, sel, ps)
    requires DownLoop(s, sel, ps, 0, cur)
    ensures MovedDown(s, sel, cur)
  {
    var first := if ps == [] then |s| else ps[0];
    assert forall m :: 0 <= m < |ps| ==> ps[m] >= first;
  }

  /** Where the selected run ending at `j` starts, given a known unselected entry just before it. */
  lemma {:induction false} RunStartIs(s: seq<nat>, sel: set<nat>, a: nat, j: nat)
    requires 0 < a <= j < |s| && s[a - 1] !in sel
    requires forall i :: a <= i < j ==> s[i] in sel
    ensures RunStart(s, sel, j) == a
    decreases j
  {
    if j > a {
      RunStartIs(s, sel, a, j - 1);
    }
  }

  /** Where the selected run starting at `j` ends, given a known unselected entry just after it. */
  lemma {:induction false} RunEndIs(s: seq<nat>, sel: set<nat>, j: nat, e: nat)
    requires j <= e && e + 1 < |s| && s[e + 1] !in sel
    requires forall i :: j < i <= e ==> s[i] in sel
    ensures RunEnd(s, sel, j) == e
    decreases e - j
  {
    if j < e {
      RunEndIs(s, sel, j + 1, e);
    }
  }

  /**
   * Moving the selection up and then down restores the order: after the
   * move up the last entry is never selected, so the move down is allowed,
   * and it carries every selected entry back.
   */
  lemma UpThenDown(s: seq<nat>, sel: set<nat>, u: seq<nat>)
    requires s != [] && s[0] !in sel && MovedUp(s, sel, u)
    ensures u[|u| - 1] !in sel
    ensures MovedDown(u, sel, s)
  {
    forall j | 0 <= j < |s|
      ensures u[j] in sel <==> j + 1 < |s| && s[j + 1] in sel
    {
      if s[j] in sel && !(j + 1 < |s| && s[j + 1] in sel) {
        var a := RunStart(s, sel, j);
      }
    }
    forall j | 0 <= j < |s|
      ensures s[j] == DownAt(u, sel, j)
    {
      if j > 0 && u[j - 1] in sel {
      } else if u[j] in sel {
        assert u[|u| - 1] !in sel;
        var e := RunEnd(u, sel, j);
        assert s[j] !in sel;
        forall i | j + 1 <= i < e + 1
          ensures s[i] in sel
        {
          assert u[i - 1] in sel;
        }
        RunStartIs(s, sel, j + 1, e + 1);
        assert u[e] in sel;
        assert u[e + 1] !in sel && s[e + 1] in sel;
        assert u[e + 1] == s[j];
      } else {
        assert s[j] !in sel;
        assert u[j] == s[j];
      }
    }
  }

  /** The mirror image of `UpThenDown`: moving down and then up restores the order. */
  lemma DownThenUp(s: seq<nat>, sel: set<nat>, d: seq<nat>)
    requires s != [] && s[|s| - 1] !in sel && MovedDown(s, sel, d)
    ensures d[0] !in sel
    ensures MovedUp(d, sel, s)
  {
    forall j | 0 <= j < |s|
      ensures d[j] in sel <==> j > 0 && s[j - 1] in sel
    {
      if s[j] in sel && !(j > 0 && s[j - 1] in sel) {
        var e := RunEnd(s, sel, j);
      }
    }
    forall j | 0 <= j < |s|
      ensures s[j] == UpAt(d, sel, j)
    {
      if j + 1 < |s| && d[j + 1] in sel {
      } else if d[j] in sel {
        assert d[0] !in sel;
        var a := RunStart(d, sel, j);
        assert j + 1 < |s| ==> s[j] !in sel;
        forall i | a - 1 < i <= j - 1
          ensures s[i] in sel
        {
          assert d[i + 1] in sel;
        }
        RunEndIs(s, sel, a - 1, j - 1);
        assert d[a] in sel;
        assert d[a - 1] !in sel && s[a - 1] in sel;
        assert d[a - 1] == s[j];
      } else {
        assert j + 1 < |s| ==> s[j] !in sel;
        assert s[j] !in sel;
        assert d[j] == s[j];
      }
    }
  }

  /** Moving pages 0 and 2 of a four-page order down one place gives [1, 0, 3, 2]. */
  lemma MoveDownExample()
    ensures MovedDown([0, 1, 2, 3], {0, 2}, [1, 0, 3, 2])
  {
    var s: seq<nat> := [0, 1, 2, 3];
    var sel: set<nat> := {0, 2};
    assert RunEnd(s, sel, 0) == 0 && RunEnd(s, sel, 2) == 2;
  }

  // ----- dragging -----

  /** The number of unselected entries strictly before position `target` (the `before_count` loop). */
  function BeforeCount(s: seq<nat>, sel: set<nat>, target: nat): (b: nat)
    ensures b <= |Without(s, sel)|
    ensures b <= target
  {
    var t := if target < |s| then target else |s|;
    WithinAppend(s[..t], s[t..], sel);
    assert s[..t] + s[t..] == s;
    WithoutAtMost(s[..t], sel);
    |Without(s[..t], sel)|
  }

  /** Dropping the selected entries never makes a sequence longer. */
  lemma {:induction false} WithoutAtMost(s: seq<nat>, sel: set<nat>)
    ensures |Without(s, sel)| <= |s|
  {
    if s != [] {
      WithoutAtMost(s[..|s| - 1], sel);
    }
  }

  /**
   * The order after a block drag towards `target`: the unselected entries
   * with the selected block, in its previous order, inserted after the
   * `BeforeCount` unselected entries that stood before the target.
   */
  function BlockMoved(s: seq<nat>, sel: set<nat>, target: nat): seq<nat>
  {
    var others := Without(s, sel);
    var b := BeforeCount(s, sel, target);
    others[..b] + Within(s, sel) + others[b..]
  }

  /** Inserting `w` into `o` at position `b` gives the union of their entries. */
  lemma InsertMultiset(o: seq<nat>, w: seq<nat>, b: nat)
    requires b <= |o|
    ensures multiset(o[..b] + w + o[b..]) == multiset(o) + multiset(w)
  {
    assert o == o[..b] + o[b..];
  }

  /** Inserting a block of selected entries among unselected ones leaves both groups recoverable in order. */
  lemma InsertGroups(o: seq<nat>, w: seq<nat>, b: nat, sel: set<nat>)
    requires b <= |o|
    requires forall k :: 0 <= k < |o| ==> o[k] !in sel
    requires forall k :: 0 <= k < |w| ==> w[k] in sel
    ensures Within(o[..b] + w + o[b..], sel) == w
    ensures Without(o[..b] + w + o[b..], sel) == o
  {
    var x, y := o[..b], o[b..];
    assert o == x + y;
    WithinNone(x, sel);
    WithinNone(y, sel);
    WithinAll(w, sel);
    WithinAppend(x, w, sel);
    WithinAppend(x + w, y, sel);
  }

  /** A block drag is a permutation of the order. */
  lemma BlockMovedPermutes(s: seq<nat>, sel: set<nat>, target: nat)
    ensures multiset(BlockMoved(s, sel, target)) == multiset(s)
  {
    SplitMultiset(s, sel);
    InsertMultiset(Without(s, sel), Within(s, sel), BeforeCount(s, sel, target));
  }

  /**
   * After a block drag the selected entries are in their previous relative
   * order, and so are the unselected ones.
   */
  lemma BlockMovedKeepsGroups(s: seq<nat>, sel: set<nat>, target: nat)
    ensures Within(BlockMoved(s, sel, target), sel) == Within(s, sel)
    ensures Without(BlockMoved(s, sel, target), sel) == Without(s, sel)
  {
    var w, o := Within(s, sel), Without(s, sel);
    WithinMembers(s, sel);
    assert forall k :: 0 <= k < |w| ==> w[k] in w;
    assert forall k :: 0 <= k < |o| ==> o[k] in o;
    InsertGroups(Without(s, sel), Within(s, sel), BeforeCount(s, sel, target), sel);
  }

  /** After a block drag the selected entries stand together, after the `BeforeCount` unselected entries. */
  lemma BlockMovedContiguous(s: seq<nat>, sel: set<nat>, target: nat)
    ensures var b := BeforeCount(s, sel, target);
      b + |Within(s, sel)| <= |BlockMoved(s, sel, target)| &&
      BlockMoved(s, sel, target)[b..b + |Within(s, sel)|] == Within(s, sel) &&
      BlockMoved(s, sel, target)[..b] == Without(s, sel)[..b]
  {
  }

  /** Inserting `x` at `pos` puts it there and leaves the other entries in order. */
  lemma InsertAt(o: seq<nat>, x: nat, pos: nat)
    requires pos <= |o|
    ensures (o[..pos] + [x] + o[pos..])[pos] == x
    ensures (o[..pos] + [x] + o[pos..])[..pos] + (o[..pos] + [x] + o[pos..])[pos + 1..] == o
  {
    var r := o[..pos] + [x] + o[pos..];
    assert r[..pos] == o[..pos];
    assert r[pos + 1..] == o[pos..];
    assert o == o[..pos] + o[pos..];
  }

  /** The order after dragging the single entry at `start` to `target`: removed, then reinserted at `target` clamped to the shortened length. */
  function SingleMoved(s: seq<nat>, start: nat, target: nat): (r: seq<nat>)
    requires start < |s|
    ensures |r| == |s|
  {
    var rest := s[..start] + s[start + 1..];
    var pos := if target > |rest| then |rest| else target;
    rest[..pos] + [s[start]] + rest[pos..]
  }

  /**
   * A single drag is a permutation: the dragged entry lands at the clamped
   * target and the other entries keep their relative order.
   */
  lemma SingleMovedMeaning(s: seq<nat>, start: nat, target: nat)
    requires start < |s|
    ensures multiset(SingleMoved(s, start, target)) == multiset(s)
    ensures var pos := if target < |s| then target else |s| - 1;
      SingleMoved(s, start, target)[pos] == s[start] &&
      SingleMoved(s, start, target)[..pos] + SingleMoved(s, start, target)[pos + 1..]
        == s[..start] + s[start + 1..]
  {
    var rest := s[..start] + s[start + 1..];
    var pos := if target < |s| then target else |s| - 1;
    assert s == s[..start] + [s[start]] + s[start + 1..];
    InsertMultiset(rest, [s[start]], pos);
    InsertAt(rest, s[start], pos);
  }

  /** Dragging an entry onto its own position changes nothing. */
  lemma SingleMovedInPlace(s: seq<nat>, start: nat)
    requires start < |s|
    ensures SingleMoved(s, start, start) == s
  {
    var rest := s[..start] + s[start + 1..];
    assert rest[..start] == s[..start];
    assert rest[start..] == s[start + 1..];
    assert s == s[..start] + [s[start]] + s[start + 1..];
  }

  // ----- moving the selection to the top or the bottom -----

  /** The selected entries, then the others, each group in its previous order (`move_selected_to_top`). */
  function ToTop(s: seq<nat>, sel: set<nat>): seq<nat>
  {
    Within(s, sel) + Without(s, sel)
  }

  /** The unselected entries, then the selected ones, each group in its previous order (`move_selected_to_bottom`). */
  function ToBottom(s: seq<nat>, sel: set<nat>): seq<nat>
  {
    Without(s, sel) + Within(s, sel)
  }

  /**
   * Moving to the top or the bottom is the block drag to the first or past the
   * last position, so both are permutations keeping each group's relative order.
   */
  lemma ToTopBottomAreDrags(s: seq<nat>, sel: set<nat>)
    ensures ToTop(s, sel) == BlockMoved(s, sel, 0)
    ensures ToBottom(s, sel) == BlockMoved(s, sel, |s|)
  {
    var others := Without(s, sel);
    assert Without(s[..0], sel) == [];
    assert s[..|s|] == s;
    assert others[..0] == [] && others[0..] == others;
    assert others[..|others|] == others && others[|others|..] == [];
  }

  // ----- rotations -----

  /** The rotation map `load_pdf` starts from: angle 0 for each of the `n` pages. */
  function ZeroAngles(n: nat): (r: map<nat, int>)
    ensures forall p: nat :: p in r <==> p < n
    ensures forall p :: p in r ==> r[p] == 0
  {
    if n == 0 then map[] else ZeroAngles(n - 1)[n - 1 := 0]
  }

  /** Regrouping the selection at the top or the bottom is a permutation of the order. */
  lemma RegroupPermutes(s: seq<nat>, sel: set<nat>)
    ensures multiset(ToTop(s, sel)) == multiset(s) && |ToTop(s, sel)| == |s|
    ensures multiset(ToBottom(s, sel)) == multiset(s) && |ToBottom(s, sel)| == |s|
  {
    SplitMultiset(s, sel);
    assert |ToTop(s, sel)| == |multiset(ToTop(s, sel))|;
    assert |ToBottom(s, sel)| == |multiset(ToBottom(s, sel))|;
  }

  /** A Python-style `d.get(p, 0)` on the rotation map. */
  function AngleOf(rot: map<nat, int>, p: nat): int
  {
    if p in rot then rot[p] else 0
  }

  /** Every stored angle is a normalised one in [0, 360). */
  predicate Normalised(rot: map<nat, int>)
  {
    forall p :: p in rot ==> 0 <= rot[p] < 360
  }

  /**
   * The rotation map after `rotate_selected(delta)` over the pages in `order`:
   * each selected page's angle becomes `(angle + delta) mod 360`, every other entry is kept.
   */
  function Rotated(rot: map<nat, int>, order: seq<nat>, sel: set<nat>, delta: int): (r: map<nat, int>)
    ensures forall p :: p in r <==> p in rot || (p in order && p in sel)
  {
    map p | p in rot.Keys + (set q | q in order && q in sel) ::
      if p in order && p in sel then (AngleOf(rot, p) + delta) % 360 else rot[p]
  }

  /** Rotation keeps the angles normalised, and touches only the selected pages. */
  lemma RotatedMeaning(rot: map<nat, int>, order: seq<nat>, sel: set<nat>, delta: int)
    requires Normalised(rot)
    ensures Normalised(Rotated(rot, order, sel, delta))
    ensures forall p :: p in rot && !(p in order && p in sel) ==> Rotated(rot, order, sel, delta)[p] == rot[p]
  {
  }

  /** Turning by `delta` and then by `-delta` restores a normalised angle. */
  lemma {:induction false} TurnBack(a: int, delta: int)
    requires 0 <= a < 360
    ensures ((a + delta) % 360 - delta) % 360 == a
  {
    var q := (a + delta) / 360;
    assert (a + delta) % 360 == a + delta - 360 * q;
    assert a + delta - 360 * q - delta == a + 360 * (-q);
  }

  /** Rotating the selection by `delta` and then by `-delta` restores every angle. */
  lemma RotateBack(rot: map<nat, int>, order: seq<nat>, sel: set<nat>, delta: int)
    requires Normalised(rot)
    requires forall p :: p in order && p in sel ==> p in rot
    ensures Rotated(Rotated(rot, order, sel, delta), order, sel, -delta) == rot
  {
    var once := Rotated(rot, order, sel, delta);
    var twice := Rotated(once, order, sel, -delta);
    forall p | p in rot && p in order && p in sel
      ensures twice[p] == rot[p]
    {
      TurnBack(rot[p], delta);
    }
  }

  /** Rotating one more page, not seen before, updates just that page's angle. */
  lemma RotatedStep(rot: map<nat, int>, pre: seq<nat>, p: nat, sel: set<nat>, delta: int)
    requires p !in pre
    ensures AngleOf(Rotated(rot, pre, sel, delta), p) == AngleOf(rot, p)
    ensures Rotated(rot, pre + [p], sel, delta) ==
      if p in sel then Rotated(rot, pre, sel, delta)[p := (AngleOf(rot, p) + delta) % 360]
      else Rotated(rot, pre, sel, delta)
  {
    var a, b := Rotated(rot, pre + [p], sel, delta), Rotated(rot, pre, sel, delta);
    var c := if p in sel then b[p := (AngleOf(rot, p) + delta) % 360] else b;
    assert forall q :: q in pre + [p] <==> q in pre || q == p;
    assert a.Keys == c.Keys;
    forall q | q in a
      ensures a[q] == c[q]
    {
    }
  }

  /** Entry `i` of a list holding each page once, rotated after the entries before it. */
  lemma RotatedEntry(rot: map<nat, int>, items: seq<nat>, i: nat, sel: set<nat>, delta: int)
    requires Distinct(items) && i < |items|
    ensures var before := Rotated(rot, items[..i], sel, delta);
      Rotated(rot, items[..i + 1], sel, delta) ==
        if items[i] in sel then before[items[i] := (AngleOf(before, items[i]) + delta) % 360] else before
  {
    var p := items[i];
    assert p !in items[..i];
    assert items[..i + 1] == items[..i] + [p];
    RotatedStep(rot, items[..i], p, sel, delta);
  }

  /**
   * The order after a drag to `target`: a single entry moved when nothing is
   * selected (unless it is dropped where it started), the selected block moved
   * otherwise (unless the target lies within the block's span).
   */
  function DragOrder(s: seq<nat>, sel: set<nat>, start: nat, target: nat): seq<nat>
    requires start < |s|
  {
    var ps := Positions(s, sel);
    if ps == [] then
      if target == start then s else SingleMoved(s, start, target)
    else if ps[0] <= target <= ps[|ps| - 1] then s
    else BlockMoved(s, sel, target)
  }

  /** Every drag is a permutation of the order. */
  lemma DragPermutes(s: seq<nat>, sel: set<nat>, start: nat, target: nat)
    requires start < |s|
    ensures multiset(DragOrder(s, sel, start, target)) == multiset(s)
    ensures |DragOrder(s, sel, start, target)| == |s|
  {
    if Positions(s, sel) == [] {
      SingleMovedMeaning(s, start, target);
    } else {
      BlockMovedPermutes(s, sel, target);
    }
    assert |DragOrder(s, sel, start, target)| == |multiset(DragOrder(s, sel, start, target))|;
  }
}
