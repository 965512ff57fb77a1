/**
 * The file lists of the merge, compress and password tabs and of the older
 * single-window application: paths are added without duplicates, removed by
 * list position, and moved one place by swapping with a neighbour.
 */
module FileLists {
  import opened Wrappers
  import opened Seqs
  import opened PageOrder

  type Path = string

  // ----- adding -----

  /** `paths` after appending each incoming path that is not already listed, in arrival order. */
  function Added(paths: seq<Path>, incoming: seq<Path>): (r: seq<Path>)
    ensures |paths| <= |r|
  {
    if incoming == [] then paths
    else
      var prev := Added(paths, incoming[..|incoming| - 1]);
      var p := incoming[|incoming| - 1];
      if p in prev then prev else prev + [p]
  }

  /**
   * Adding keeps the existing entries in front and in order, lists every
   * incoming path afterwards, adds nothing else, and never creates a duplicate.
   */
  lemma {:induction false} AddedMeaning(paths: seq<Path>, incoming: seq<Path>)
    ensures Added(paths, incoming)[..|paths|] == paths
    ensures forall p :: p in Added(paths, incoming) <==> p in paths || p in incoming
    ensures Distinct(paths) ==> Distinct(Added(paths, incoming))
  {
    if incoming != [] {
      var init := incoming[..|incoming| - 1];
      AddedMeaning(paths, init);
      var prev := Added(paths, init);
      var p := incoming[|incoming| - 1];
      assert incoming == init + [p];
      if p !in prev {
        assert (prev + [p])[..|paths|] == prev[..|paths|];
      }
    }
  }

  /** Adding the same paths a second time changes nothing. */
  lemma {:induction false} AddedTwice(paths: seq<Path>, incoming: seq<Path>)
    ensures Added(Added(paths, incoming), incoming) == Added(paths, incoming)
  {
    AddedMeaning(paths, incoming);
    AlreadyListed(Added(paths, incoming), incoming);
  }

  /** Adding paths that are all listed already changes nothing. */
  lemma {:induction false} AlreadyListed(paths: seq<Path>, incoming: seq<Path>)
    requires forall i :: 0 <= i < |incoming| ==> incoming[i] in paths
    ensures Added(paths, incoming) == paths
  {
    if incoming != [] {
      AlreadyListed(paths, incoming[..|incoming| - 1]);
    }
  }

  // ----- removing -----

  /** The entries of `s` at positions outside `sel`, in order. */
  function KeepUnselected<T>(s: seq<T>, sel: set<nat>): (r: seq<T>)
    ensures |r| <= |s|
  {
    if s == [] then []
    else KeepUnselected(s[..|s| - 1], sel) + (if |s| - 1 in sel then [] else [s[|s| - 1]])
  }

  /** `[i for i in range(n) if i not in sel]` */
  function UnselectedPositions(n: nat, sel: set<nat>): seq<nat>
  {
    Without(Iota(n), sel)
  }

  /**
   * What removal keeps is exactly the entries at the unselected positions
   * `[i for i in range(len(s)) if i not in sel]`, in ascending order.
   */
  lemma {:induction false} KeepUnselectedMeaning<T>(s: seq<T>, sel: set<nat>)
    ensures |KeepUnselected(s, sel)| == |UnselectedPositions(|s|, sel)|
    ensures forall k :: 0 <= k < |UnselectedPositions(|s|, sel)| ==>
      UnselectedPositions(|s|, sel)[k] < |s| &&
      KeepUnselected(s, sel)[k] == s[UnselectedPositions(|s|, sel)[k]]
  {
    if s != [] {
      var n := |s|;
      var init := s[..n - 1];
      KeepUnselectedMeaning(init, sel);
      assert Iota(n)[..n - 1] == Iota(n - 1);
      var prev := UnselectedPositions(n - 1, sel);
      var ks := UnselectedPositions(n, sel);
      var prevK := KeepUnselected(init, sel);
      var r := KeepUnselected(s, sel);
      if n - 1 in sel {
        assert ks == prev && r == prevK;
      } else {
        assert ks == prev + [n - 1] && r == prevK + [s[n - 1]];
        forall k | 0 <= k < |ks|
          ensures ks[k] < n && r[k] == s[ks[k]]
        {
          if k < |prev| {
            assert ks[k] == prev[k] && prev[k] < n - 1;
            assert r[k] == prevK[k] == init[prev[k]];
          }
        }
      }
    }
  }

  /** Removing nothing keeps the list. */
  lemma {:induction false} KeepAllUnselected<T>(s: seq<T>, sel: set<nat>)
    requires forall p :: 0 <= p < |s| ==> p !in sel
    ensures KeepUnselected(s, sel) == s
  {
    if s != [] {
      KeepAllUnselected(s[..|s| - 1], sel);
    }
  }

  /** The entries at unselected positions `m` and beyond. */
  function KeptFrom<T>(s: seq<T>, sel: set<nat>, m: nat): seq<T>
    requires m <= |s|
    decreases |s| - m
  {
    if m == |s| then [] else (if m in sel then [] else [s[m]]) + KeptFrom(s, sel, m + 1)
  }

  /** The kept entries split at any position `m`. */
  lemma {:induction false} KeepSplit<T>(s: seq<T>, sel: set<nat>, m: nat)
    requires m <= |s|
    ensures KeepUnselected(s, sel) == KeepUnselected(s[..m], sel) + KeptFrom(s, sel, m)
    decreases |s| - m
  {
    if m == |s| {
      assert s[..m] == s;
    } else {
      KeepSplit(s, sel, m + 1);
      var opt := if m in sel then [] else [s[m]];
      var t := s[..m + 1];
      assert t[..|t| - 1] == s[..m] && t[|t| - 1] == s[m];
      assert KeepUnselected(t, sel) == KeepUnselected(s[..m], sel) + opt;
      assert KeptFrom(s, sel, m) == opt + KeptFrom(s, sel, m + 1);
    }
  }

  /** Deleting a selected position `idx` when nothing between it and `m` is selected. */
  lemma KeptGap<T>(s: seq<T>, sel: set<nat>, idx: nat, m: nat)
    requires idx < m <= |s| && idx in sel
    requires forall p :: idx < p < m ==> p !in sel
    ensures KeptFrom(s, sel, idx) == s[idx + 1..m] + KeptFrom(s, sel, m)
  {
    KeptGapFree(s, sel, idx + 1, m);
  }

  /** Unselected positions from `a` to `m` contribute all their entries. */
  lemma {:induction false} KeptGapFree<T>(s: seq<T>, sel: set<nat>, a: nat, m: nat)
    requires a <= m <= |s|
    requires forall p :: a <= p < m ==> p !in sel
    ensures KeptFrom(s, sel, a) == s[a..m] + KeptFrom(s, sel, m)
    decreases m - a
  {
    if a < m {
      KeptGapFree(s, sel, a + 1, m);
      assert KeptFrom(s, sel, a) == [s[a]] + KeptFrom(s, sel, a + 1);
      assert s[a..m] == [s[a]] + s[a + 1..m];
    } else {
      assert s[a..m] == [];
    }
  }

  /**
   * The loop of `remove_selected`: the selected positions (ascending, as the
   * list box reports them) are deleted highest first, and a position beyond
   * the current end is skipped.
   */
  method DeletePositions(s: seq<Path>, sel: seq<nat>) returns (r: seq<Path>)
    requires StrictlyIncreasing(sel)
    ensures r == KeepUnselected(s, set i | i in sel)
  {
    ghost var chosen := set i | i in sel;
    r := s;
    var k: nat := |sel|;
    while k > 0
      invariant k <= |sel|
      invariant var m := if k == |sel| || sel[k] >= |s| then |s| else sel[k];
        r == s[..m] + KeptFrom(s, chosen, m)
      invariant k < |sel| && sel[k] >= |s| ==> r == s
      invariant forall q :: k <= q < |sel| ==> sel[q] in chosen
    {
      var idx := sel[k - 1];
      ghost var m := if k == |sel| || sel[k] >= |s| then |s| else sel[k];
      if k < |sel| {
        assert idx < sel[k];
      }
      if idx < |r| {
        assert idx < m;
        forall p | idx < p < m
          ensures p !in chosen
        {
          forall q | 0 <= q < |sel|
            ensures sel[q] != p
          {
            if q < k - 1 {
              assert sel[q] < idx;
            } else if q > k - 1 {
              assert sel[k] <= sel[q];
            }
          }
        }
        KeptGap(s, chosen, idx, m);
        assert r[..idx] == s[..idx];
        assert r[idx + 1..] == s[idx + 1..m] + KeptFrom(s, chosen, m);
        r := r[..idx] + r[idx + 1..];
      } else {
        assert m == |s|;
      }
      k := k - 1;
    }
    var m := if |sel| == 0 || sel[0] >= |s| then |s| else sel[0];
    forall p | 0 <= p < m
      ensures p !in chosen
    {
      forall q | 0 <= q < |sel|
        ensures sel[q] != p
      {
        if q > 0 {
          assert sel[0] < sel[q];
        }
      }
    }
    KeepAllUnselected(s[..m], chosen);
    KeepSplit(s, chosen, m);
  }

  // ----- moving -----

  /** The list after `move_up` of the merge tab: the first selected entry swaps with the one above it. */
  function FirstUp(s: seq<Path>, sel: seq<nat>): (r: seq<Path>)
    requires sel != [] ==> sel[0] < |s|
    ensures |r| == |s|
  {
    if sel == [] || sel[0] == 0 then s else Swap(s, sel[0] - 1, sel[0])
  }

  /** The list after `move_down` of the merge tab: the first selected entry swaps with the one below it. */
  function FirstDown(s: seq<Path>, sel: seq<nat>): (r: seq<Path>)
    ensures |r| == |s|
  {
    if sel == [] || sel[0] + 1 >= |s| then s else Swap(s, sel[0] + 1, sel[0])
  }

  /**
   * Moving an entry up and then, at its new position, down restores the list;
   * each move is a permutation and moves the entry by exactly one place.
   */
  lemma FirstUpThenDown(s: seq<Path>, i: nat)
    requires 0 < i < |s|
    ensures FirstUp(s, [i])[i - 1] == s[i] && FirstUp(s, [i])[i] == s[i - 1]
    ensures multiset(FirstUp(s, [i])) == multiset(s)
    ensures FirstDown(FirstUp(s, [i]), [i - 1]) == s
  {
    var u := FirstUp(s, [i]);
    assert Swap(u, i, i - 1) == s;
  }

  /**
   * The list after the older application's `move_up`: every selected entry
   * swaps with the one above it, top first. On the positions `0 .. n-1` this
   * is the thumbnail view's `MovedUp`.
   */
  function ShiftedUp(s: seq<Path>, sel: set<nat>): (r: seq<Path>)
    requires s != [] && 0 !in sel
    ensures |r| == |s|
  {
    seq(|s|, j requires 0 <= j < |s| => s[UpAt(Iota(|s|), sel, j)])
  }

  /** The mirror image of `ShiftedUp` for the older application's `move_down`. */
  function ShiftedDown(s: seq<Path>, sel: set<nat>): (r: seq<Path>)
    requires s != [] && |s| - 1 !in sel
    ensures |r| == |s|
  {
    seq(|s|, j requires 0 <= j < |s| => s[DownAt(Iota(|s|), sel, j)])
  }

  /** Each selected entry of the older application's list moves up one place, and each selected entry moves down one place. */
  lemma ShiftsFollowSelection(s: seq<Path>, sel: set<nat>)
    requires s != []
    ensures 0 !in sel ==> forall i :: 0 < i < |s| && i in sel ==> ShiftedUp(s, sel)[i - 1] == s[i]
    ensures |s| - 1 !in sel ==> forall i :: 0 <= i < |s| - 1 && i in sel ==> ShiftedDown(s, sel)[i + 1] == s[i]
  {
  }

  /** The entries of `s` picked by the positions in `ix`. */
  predicate Follows(r: seq<Path>, s: seq<Path>, ix: seq<nat>)
  {
    |r| == |ix| && forall j :: 0 <= j < |ix| ==> ix[j] < |s| && r[j] == s[ix[j]]
  }

  /** Swapping two entries and their origins together keeps `Follows`. */
  lemma FollowsSwap(r: seq<Path>, s: seq<Path>, ix: seq<nat>, i: nat, j: nat)
    requires Follows(r, s, ix) && i < |ix| && j < |ix|
    ensures Follows(Swap(r, i, j), s, Swap(ix, i, j))
  {
  }

  /** The positions `Ascending(sel, n)` are the selected positions of `0 .. n-1`. */
  lemma IotaPositions(n: nat, sel: set<nat>)
    requires n > 0
    ensures 0 !in sel ==> UpPositions(Iota(n), sel, Ascending(sel, n))
    ensures n - 1 !in sel ==> DownPositions(Iota(n), sel, Ascending(sel, n))
  {
  }

  /** One swap of the ascending loop, applied to the entries and to their origins alike. */
  lemma FollowUpStep(r: seq<Path>, s: seq<Path>, base: seq<nat>, sel: set<nat>, ps: seq<nat>, k: nat, ix: seq<nat>)
    requires UpPositions(base, sel, ps) && k < |ps|
    requires UpLoop(base, sel, ps, k, ix) && Follows(r, s, ix)
    ensures 1 <= ps[k] < |r|
    ensures UpLoop(base, sel, ps, k + 1, Swap(ix, ps[k], ps[k] - 1))
    ensures Follows(Swap(r, ps[k], ps[k] - 1), s, Swap(ix, ps[k], ps[k] - 1))
  {
    UpStep(base, sel, ps, k, ix);
    FollowsSwap(r, s, ix, ps[k], ps[k] - 1);
  }

  /** One swap of the descending loop, applied to the entries and to their origins alike. */
  lemma FollowDownStep(r: seq<Path>, s: seq<Path>, base: seq<nat>, sel: set<nat>, ps: seq<nat>, k: nat, ix: seq<nat>)
    requires DownPositions(base, sel, ps) && k < |ps|
    requires DownLoop(base, sel, ps, k + 1, ix) && Follows(r, s, ix)
    ensures ps[k] + 1 < |r|
    ensures DownLoop(base, sel, ps, k, Swap(ix, ps[k], ps[k] + 1))
    ensures Follows(Swap(r, ps[k], ps[k] + 1), s, Swap(ix, ps[k], ps[k] + 1))
  {
    DownStep(base, sel, ps, k + 1, ix);
    FollowsSwap(r, s, ix, ps[k], ps[k] + 1);
  }

  /** Entries taken from the positions `MovedUp` computes form `ShiftedUp`. */
  lemma FollowsShiftedUp(r: seq<Path>, s: seq<Path>, ix: seq<nat>, sel: set<nat>)
    requires s != [] && 0 !in sel
    requires Follows(r, s, ix) && MovedUp(Iota(|s|), sel, ix)
    ensures r == ShiftedUp(s, sel)
  {
  }

  /** Entries taken from the positions `MovedDown` computes form `ShiftedDown`. */
  lemma FollowsShiftedDown(r: seq<Path>, s: seq<Path>, ix: seq<nat>, sel: set<nat>)
    requires s != [] && |s| - 1 !in sel
    requires Follows(r, s, ix) && MovedDown(Iota(|s|), sel, ix)
    ensures r == ShiftedDown(s, sel)
  {
  }

  /** The swap loop of the older application's `move_up`, tracking where each entry came from. */
  method SwapSelectedUp(s: seq<Path>, sel: set<nat>) returns (r: seq<Path>)
    requires s != [] && 0 !in sel
    ensures r == ShiftedUp(s, sel)
    ensures multiset(r) == multiset(s)
  {
    var ps := Ascending(sel, |s|);
    IotaPositions(|s|, sel);
    ghost var ix := Iota(|s|);
    r := s;
    for k := 0 to |ps|
      invariant UpLoop(Iota(|s|), sel, ps, k, ix)
      invariant Follows(r, s, ix)
      invariant multiset(r) == multiset(s)
    {
      FollowUpStep(r, s, Iota(|s|), sel, ps, k, ix);
      r := Swap(r, ps[k], ps[k] - 1);
      ix := Swap(ix, ps[k], ps[k] - 1);
    }
    UpDone(Iota(|s|), sel, ps, ix);
    FollowsShiftedUp(r, s, ix, sel);
  }

  /** The swap loop of the older application's `move_down`, bottom first. */
  method SwapSelectedDown(s: seq<Path>, sel: set<nat>) returns (r: seq<Path>)
    requires s != [] && |s| - 1 !in sel
    ensures r == ShiftedDown(s, sel)
    ensures multiset(r) == multiset(s)
  {
    var ps := Ascending(sel, |s|);
    IotaPositions(|s|, sel);
    ghost var base := Iota(|s|);
    ghost var ix := base;
    r := s;
    var k: nat := |ps|;
    while k > 0
      invariant k <= |ps|
      invariant DownLoop(base, sel, ps, k, ix)
      invariant Follows(r, s, ix)
      invariant multiset(r) == multiset(s)
    {
      k := k - 1;
      FollowDownStep(r, s, base, sel, ps, k, ix);
      r := Swap(r, ps[k], ps[k] + 1);
      ix := Swap(ix, ps[k], ps[k] + 1);
    }
    DownDone(base, sel, ps, ix);
    FollowsShiftedDown(r, s, ix, sel);
  }

  /** A tab's list of input paths. */
  class FileList {
    var paths: seq<Path>

    constructor ()
      ensures paths == []
    {
      paths := [];
    }

    /**
     * `_add_files` of the merge and password tabs: the string form of every
     * listed path is kept in a set, and an incoming path is appended only when
     * its string is not in the set yet.
     */
    method AddFiles(incoming: seq<Path>)
      modifies this
      ensures paths == Added(old(paths), incoming)
    {
      if incoming == [] {
        return;
      }
      var exist := set i | 0 <= i < |paths| :: paths[i];
      ghost var start := paths;
      for i := 0 to |incoming|
        invariant paths == Added(start, incoming[..i])
        invariant forall p :: p in exist <==> p in paths
      {
        var p := incoming[i];
        assert incoming[..i + 1][..i] == incoming[..i];
        if p !in exist {
          paths := paths + [p];
          exist := exist + {p};
        }
      }
      assert incoming[..|incoming|] == incoming;
    }

    /**
     * `_add_files` of the compress tab and `add_files` of the older
     * application: an incoming path is appended when it is not in the list;
     * the number appended is returned.
     */
    method AddFilesChecked(incoming: seq<Path>) returns (added: nat)
      modifies this
      ensures paths == Added(old(paths), incoming)
      ensures added == |paths| - |old(paths)|
    {
      added := 0;
      ghost var start := paths;
      for i := 0 to |incoming|
        invariant paths == Added(start, incoming[..i])
        invariant added == |paths| - |start|
      {
        var p := incoming[i];
        assert incoming[..i + 1][..i] == incoming[..i];
        if p !in paths {
          paths := paths + [p];
          added := added + 1;
        }
      }
      assert incoming[..|incoming|] == incoming;
    }

    /** `remove_selected`: the entries at the selected positions are deleted. */
    method RemoveSelected(sel: seq<nat>)
      requires StrictlyIncreasing(sel)
      modifies this
      ensures paths == KeepUnselected(old(paths), set i | i in sel)
    {
      if sel == [] {
        KeepAllUnselected(paths, set i | i in sel);
        return;
      }
      paths := DeletePositions(paths, sel);
    }

    /** `move_up` of the merge tab; returns the position to select afterwards, if any. */
    method MoveFirstUp(sel: seq<nat>) returns (focus: Option<nat>)
      requires sel != [] ==> sel[0] < |paths|
      modifies this
      ensures paths == FirstUp(old(paths), sel)
      ensures focus == if sel == [] || sel[0] == 0 then None else Some(sel[0] - 1)
    {
      if sel == [] || sel[0] == 0 {
        return None;
      }
      var idx := sel[0];
      paths := Swap(paths, idx - 1, idx);
      focus := Some(idx - 1);
    }

    /** `move_down` of the merge tab; returns the position to select afterwards, if any. */
    method MoveFirstDown(sel: seq<nat>) returns (focus: Option<nat>)
      modifies this
      ensures paths == FirstDown(old(paths), sel)
      ensures focus == if sel == [] || sel[0] + 1 >= |old(paths)| then None else Some(sel[0] + 1)
    {
      if sel == [] || sel[0] >= |paths| - 1 {
        return None;
      }
      var idx := sel[0];
      paths := Swap(paths, idx + 1, idx);
      focus := Some(idx + 1);
    }

    /**
     * `move_up` of the older application: unless nothing is selected or the
     * top entry is, every selected entry moves up one place and the selection
     * moves with it.
     */
    method MoveSelectionUp(sel: set<nat>) returns (newSel: set<nat>)
      requires forall i :: i in sel ==> i < |paths|
      modifies this
      ensures sel == {} || 0 in sel ==> paths == old(paths) && newSel == sel
      ensures sel != {} && 0 !in sel ==>
        old(paths) != [] && paths == ShiftedUp(old(paths), sel) &&
        newSel == set i | i in sel :: (i - 1) as nat
    {
      if sel == {} || 0 in sel {
        return sel;
      }
      paths := SwapSelectedUp(paths, sel);
      newSel := set i | i in sel :: (i - 1) as nat;
    }

    /**
     * `move_down` of the older application: unless nothing is selected or the
     * bottom entry is, every selected entry moves down one place and the
     * selection moves with it.
     */
    method MoveSelectionDown(sel: set<nat>) returns (newSel: set<nat>)
      requires forall i :: i in sel ==> i < |paths|
      modifies this
      ensures sel == {} || |old(paths)| - 1 in sel ==> paths == old(paths) && newSel == sel
      ensures sel != {} && |old(paths)| - 1 !in sel ==>
        old(paths) != [] && paths == ShiftedDown(old(paths), sel) &&
        newSel == set i | i in sel :: i + 1
    {
      if sel == {} || |paths| - 1 in sel {
        return sel;
      }
      paths := SwapSelectedDown(paths, sel);
      newSel := set i | i in sel :: i + 1;
    }
  }
}
