/**
 * The state behind the two page widgets: the selectable page list of the
 * split tab (`PageSelectView`) and the reorderable, rotatable thumbnail list
 * of the reorder tab (`PageThumbnailView`). Rendering, scrolling and widget
 * bookkeeping are dropped; what is kept is the list of original page indices
 * in display order, the rotation map and the selection.
 */
module PageViews {
  import opened Wrappers
  import opened Seqs
  import opened PageOrder

  /** The reorder tab's thumbnail list. */
  class PageThumbnailView {
    /** `page_index` of each entry of `page_items`, in display order. */
    var order: seq<nat>
    /** `page_rotations`: original page index to angle. */
    var rotations: map<nat, int>
    /** `selected_pages`: original page indices. */
    var selected: set<nat>
    /** `current_page_index`. */
    var current: Option<nat>
    /** The display position recorded by the press that started a drag. */
    var dragging: Option<nat>
    /** Whether a document is open (`doc is not None`). */
    var loaded: bool
    /** The number of pages of the open document. */
    var pageCount: nat

    /** The selection holds pages of the document, and there is a current page exactly when it is not empty, one of the selected. */
    static predicate SelectionOk(sel: set<nat>, cur: Option<nat>, n: nat)
    {
      (forall p :: p in sel ==> p < n) &&
      (cur.Some? <==> sel != {}) &&
      (cur.Some? ==> cur.value in sel)
    }

    ghost predicate Valid()
      reads this
    {
      IsOrderOf(order, pageCount) &&
      (forall p: nat :: p in rotations <==> p < pageCount) &&
      Normalised(rotations) &&
      (forall p :: p in selected ==> p < pageCount) &&
      (current.Some? <==> selected != {}) &&
      (current.Some? ==> current.value in selected) &&
      (dragging.Some? ==> dragging.value < |order|) &&
      (!loaded ==> pageCount == 0)
    }

    constructor ()
      ensures Valid()
      ensures order == [] && rotations == map[] && selected == {}
      ensures current.None? && dragging.None? && !loaded
    {
      order := [];
      rotations := map[];
      selected := {};
      current := None;
      dragging := None;
      loaded := false;
      pageCount := 0;
    }

    /** `clear`: forgets the document, the order, the rotations, the selection and any drag. */
    method Clear()
      modifies this
      ensures Valid()
      ensures order == [] && rotations == map[] && selected == {}
      ensures current.None? && dragging.None? && !loaded && pageCount == 0
    {
      order := [];
      dragging := None;
      rotations := map[];
      selected := {};
      current := None;
      loaded := false;
      pageCount := 0;
    }

    /**
     * `load_pdf` for a document of `n` pages: the display order is the
     * document order, every angle is 0, and the first page is selected and current.
     */
    method Load(n: nat)
      modifies this
      ensures Valid() && loaded && pageCount == n
      ensures order == Iota(n)
      ensures forall p: nat :: p in rotations <==> p < n
      ensures forall p :: p in rotations ==> rotations[p] == 0
      ensures selected == (if n > 0 then {0} else {})
      ensures current == (if n > 0 then Some(0) else None)
      ensures dragging.None?
    {
      var items := ListPages(n);
      order := items;
      rotations := ZeroAngles(n);
      selected := if n > 0 then {0} else {};
      current := if n > 0 then Some(0) else None;
      dragging := None;
      loaded := true;
      pageCount := n;
    }

    /** The loop of `load_pdf` that appends one entry per page. */
    static method ListPages(n: nat) returns (items: seq<nat>)
      ensures items == Iota(n)
    {
      items := [];
      for i := 0 to n
        invariant items == Iota(i)
      {
        items := items + [i];
      }
    }

    /**
     * `rotate_selected`: with a document open and a non-empty selection, each
     * selected page in the list turns by `delta`, modulo 360; otherwise nothing changes.
     */
    method RotateSelected(delta: int)
      requires Valid()
      modifies this
      ensures Valid()
      ensures order == old(order) && selected == old(selected) && current == old(current)
      ensures dragging == old(dragging) && loaded == old(loaded) && pageCount == old(pageCount)
      ensures rotations ==
        if selected == {} || !loaded then old(rotations)
        else Rotated(old(rotations), order, selected, delta)
    {
      if selected == {} || !loaded {
        return;
      }
      PermutationOfIota(order, pageCount);
      RotatedMeaning(rotations, order, selected, delta);
      rotations := TurnSelected(rotations, order, selected, delta);
    }

    /** The loop of `rotate_selected` over the list entries, on a list holding each page once. */
    static method TurnSelected(rot: map<nat, int>, items: seq<nat>, sel: set<nat>, delta: int)
      returns (r: map<nat, int>)
      requires Distinct(items)
      ensures r == Rotated(rot, items, sel, delta)
    {
      r := rot;
      for i := 0 to |items|
        invariant r == Rotated(rot, items[..i], sel, delta)
      {
        RotatedEntry(rot, items, i, sel, delta);
        var p := items[i];
        if p in sel {
          var angle := AngleOf(r, p);
          r := r[p := (angle + delta) % 360];
        }
      }
      assert items[..|items|] == items;
    }

    /**
     * `_on_press` on the entry at display position `hit` (None: the press hit
     * no entry). With Ctrl the page's membership in the selection toggles and
     * no drag starts. Without Ctrl an unselected page becomes the whole
     * selection, a selected one just becomes current, and a drag starts.
     */
    method Press(hit: Option<nat>, ctrl: bool)
      requires Valid()
      requires hit.Some? ==> hit.value < |order|
      modifies this
      ensures Valid()
      ensures order == old(order) && rotations == old(rotations) && loaded == old(loaded)
      ensures pageCount == old(pageCount)
      ensures hit.None? ==> selected == old(selected) && current == old(current) && dragging == old(dragging)
      ensures hit.Some? && ctrl ==>
        var page := order[hit.value];
        dragging == old(dragging) &&
        selected == (if page in old(selected) then old(selected) - {page} else old(selected) + {page}) &&
        (page !in old(selected) ==> current == Some(page)) &&
        (page in old(selected) && old(current) != Some(page) ==> current == old(current))
      ensures hit.Some? && !ctrl ==>
        var page := order[hit.value];
        dragging == hit && current == Some(page) &&
        selected == (if page in old(selected) then old(selected) else {page})
    {
      if hit.None? {
        return;
      }
      var page := order[hit.value];
      EntryBelow(order, pageCount, hit.value);
      var sel, cur;
      if ctrl {
        sel, cur := Toggle(selected, current, page, pageCount);
        selected, current := sel, cur;
      } else {
        sel, cur := Pick(selected, page, pageCount);
        selected, current, dragging := sel, cur, hit;
      }
    }

    /**
     * The selection part of a plain press: a selected page just becomes
     * current, an unselected one becomes the whole selection.
     */
    static method Pick(sel: set<nat>, page: nat, n: nat) returns (sel': set<nat>, cur': Option<nat>)
      requires page < n && forall p :: p in sel ==> p < n
      ensures SelectionOk(sel', cur', n)
      ensures sel' == if page in sel then sel else {page}
      ensures cur' == Some(page)
    {
      sel' := sel;
      if !(page in sel && sel != {}) {
        sel' := {page};
      }
      cur' := Some(page);
    }

    /**
     * The Ctrl branch of `_on_press`: a selected page leaves the selection
     * (if it was current, some remaining page, or none, becomes current); an
     * unselected page joins it and becomes current.
     */
    static method Toggle(sel: set<nat>, cur: Option<nat>, page: nat, n: nat) returns (sel': set<nat>, cur': Option<nat>)
      requires SelectionOk(sel, cur, n) && page < n
      ensures SelectionOk(sel', cur', n)
      ensures sel' == if page in sel then sel - {page} else sel + {page}
      ensures page !in sel ==> cur' == Some(page)
      ensures page in sel && cur != Some(page) ==> cur' == cur
    {
      sel', cur' := sel, cur;
      if page in sel {
        sel' := sel - {page};
        if cur == Some(page) {
          if sel' == {} {
            cur' := None;
          } else {
            var next :| next in sel';
            cur' := Some(next);
          }
        } else {
          assert cur.value in sel';
        }
      } else {
        sel' := sel + {page};
        cur' := Some(page);
      }
    }

    /**
     * The reorder part of `_on_motion` with the pointer nearest to display
     * position `target` (None: the list is empty): nothing happens unless a
     * drag is in progress; otherwise the order becomes `DragOrder`.
     */
    method Motion(target: Option<nat>)
      requires Valid()
      modifies this
      ensures Valid()
      ensures rotations == old(rotations) && selected == old(selected) && current == old(current)
      ensures dragging == old(dragging) && loaded == old(loaded) && pageCount == old(pageCount)
      ensures order ==
        if dragging.None? || target.None? then old(order)
        else DragOrder(old(order), selected, dragging.value, target.value)
    {
      if dragging.None? || target.None? {
        return;
      }
      DragPermutes(order, selected, dragging.value, target.value);
      order := Drag(order, selected, dragging.value, target.value);
    }

    /**
     * `_on_release`: the drag ends, so later pointer motion reorders nothing
     * until the next plain press; the order, rotations and selection stay.
     */
    method Release()
      requires Valid()
      modifies this
      ensures Valid()
      ensures dragging.None?
      ensures order == old(order) && rotations == old(rotations) && selected == old(selected)
      ensures current == old(current) && loaded == old(loaded) && pageCount == old(pageCount)
    {
      dragging := None;
    }

    /** The reorder steps of `_on_motion` once a drag and a target are known. */
    static method Drag(s: seq<nat>, sel: set<nat>, start: nat, t: nat) returns (r: seq<nat>)
      requires start < |s|
      ensures r == DragOrder(s, sel, start, t)
    {
      r := s;
      var ps := Positions(s, sel);
      if ps == [] {
        if t == start {
          return;
        }
        var item := r[start];
        r := r[..start] + r[start + 1..];
        var pos := t;
        if pos > |r| {
          pos := |r|;
        }
        r := r[..pos] + [item] + r[pos..];
      } else {
        if ps[0] <= t <= ps[|ps| - 1] {
          return;
        }
        var block := Within(s, sel);
        var others := Without(s, sel);
        var before := CountBefore(s, sel, t);
        r := others[..before] + block + others[before..];
      }
    }

    /**
     * The `before_count` loop of `_on_motion`: the unselected positions
     * before `target`, counted until the loop breaks at the target.
     */
    static method CountBefore(s: seq<nat>, sel: set<nat>, target: nat) returns (count: nat)
      ensures count == BeforeCount(s, sel, target)
    {
      count := 0;
      var j := 0;
      while j < |s|
        invariant j <= |s| && (j <= target || j == 0)
        invariant count == |Without(s[..j], sel)|
        decreases |s| - j
      {
        if j >= target {
          break;
        }
        assert s[..j + 1][..j] == s[..j];
        if s[j] !in sel {
          count := count + 1;
        }
        j := j + 1;
      }
      assert j == (if target < |s| then target else |s|);
    }

    /**
     * The ascending position list `selected_indices` built by the loops of
     * `move_selected_up` and `move_selected_down`.
     */
    static method SelectedPositions(s: seq<nat>, sel: set<nat>) returns (ps: seq<nat>)
      ensures StrictlyIncreasing(ps)
      ensures forall i :: 0 <= i < |ps| ==> ps[i] < |s|
      ensures forall y :: 0 <= y < |s| ==> (y in ps <==> s[y] in sel)
    {
      ps := [];
      for i := 0 to |s|
        invariant StrictlyIncreasing(ps)
        invariant forall k :: 0 <= k < |ps| ==> ps[k] < i
        invariant forall y :: 0 <= y < |s| ==> (y in ps <==> y < i && s[y] in sel)
      {
        if s[i] in sel {
          ps := ps + [i];
        }
      }
    }

    /**
     * `move_selected_up`: unless the selection is empty or holds the first
     * entry, each selected entry swaps with the one above it, top first.
     */
    method MoveSelectedUp()
      requires Valid()
      modifies this
      ensures Valid()
      ensures rotations == old(rotations) && selected == old(selected) && current == old(current)
      ensures dragging == old(dragging) && loaded == old(loaded) && pageCount == old(pageCount)
      ensures multiset(order) == multiset(old(order))
      ensures selected == {} || old(order) == [] || old(order)[0] in selected ==> order == old(order)
      ensures selected != {} && old(order) != [] && old(order)[0] !in selected ==>
        MovedUp(old(order), selected, order)
    {
      if selected == {} {
        return;
      }
      var ps := SelectedPositions(order, selected);
      if order == [] || 0 in ps {
        return;
      }
      order := SwapUp(order, selected, ps);
    }

    /** The ascending swap loop of `move_selected_up`. */
    static method SwapUp(s: seq<nat>, sel: set<nat>, ps: seq<nat>) returns (r: seq<nat>)
      requires UpPositions(s, sel, ps)
      ensures MovedUp(s, sel, r) && multiset(r) == multiset(s)
    {
      r := s;
      for k := 0 to |ps|
        invariant UpLoop(s, sel, ps, k, r)
        invariant multiset(r) == multiset(s)
      {
        UpStep(s, sel, ps, k, r);
        r := Swap(r, ps[k], ps[k] - 1);
      }
      UpDone(s, sel, ps, r);
    }

    /**
     * `move_selected_down`: unless the selection is empty or holds the last
     * entry, each selected entry swaps with the one below it, bottom first.
     */
    method MoveSelectedDown()
      requires Valid()
      modifies this
      ensures Valid()
      ensures rotations == old(rotations) && selected == old(selected) && current == old(current)
      ensures dragging == old(dragging) && loaded == old(loaded) && pageCount == old(pageCount)
      ensures multiset(order) == multiset(old(order))
      ensures selected == {} || old(order) == [] || old(order)[|old(order)| - 1] in selected ==>
        order == old(order)
      ensures selected != {} && old(order) != [] && old(order)[|old(order)| - 1] !in selected ==>
        MovedDown(old(order), selected, order)
    {
      if selected == {} {
        return;
      }
      var ps := SelectedPositions(order, selected);
      if order == [] || |order| - 1 in ps {
        return;
      }
      order := SwapDown(order, selected, ps);
    }

    /** The descending swap loop of `move_selected_down`. */
    static method SwapDown(s: seq<nat>, sel: set<nat>, ps: seq<nat>) returns (r: seq<nat>)
      requires DownPositions(s, sel, ps)
      ensures MovedDown(s, sel, r) && multiset(r) == multiset(s)
    {
      r := s;
      var k: nat := |ps|;
      DownStart(s, sel, ps);
      while k > 0
        invariant DownState(s, sel, ps, k, r)
      {
        DownStateStep(s, sel, ps, k, r);
        r := Swap(r, ps[k - 1], ps[k - 1] + 1);
        k := k - 1;
      }
      DownDone(s, sel, ps, r);
    }

    /**
     * The loop shared by `move_selected_to_top` and `move_selected_to_bottom`:
     * the selected entries and the others, each in display order.
     */
    static method Partition(s: seq<nat>, sel: set<nat>) returns (chosen: seq<nat>, rest: seq<nat>)
      ensures chosen == Within(s, sel) && rest == Without(s, sel)
    {
      chosen, rest := [], [];
      for i := 0 to |s|
        invariant chosen == Within(s[..i], sel) && rest == Without(s[..i], sel)
      {
        assert s[..i + 1][..i] == s[..i];
        if s[i] in sel {
          chosen := chosen + [s[i]];
        } else {
          rest := rest + [s[i]];
        }
      }
      assert s[..|s|] == s;
    }

    /** `move_selected_to_top`: with a non-empty selection, the selected entries first. */
    method MoveSelectedToTop()
      requires Valid()
      modifies this
      ensures Valid()
      ensures rotations == old(rotations) && selected == old(selected) && current == old(current)
      ensures dragging == old(dragging) && loaded == old(loaded) && pageCount == old(pageCount)
      ensures order == if selected == {} then old(order) else ToTop(old(order), selected)
    {
      if selected == {} {
        return;
      }
      RegroupPermutes(order, selected);
      order := GroupToTop(order, selected);
    }

    /** The list that `move_selected_to_top` builds from the two groups. */
    static method GroupToTop(s: seq<nat>, sel: set<nat>) returns (r: seq<nat>)
      ensures r == ToTop(s, sel)
    {
      var chosen, rest := Partition(s, sel);
      r := chosen + rest;
    }

    /** `move_selected_to_bottom`: with a non-empty selection, the selected entries last. */
    method MoveSelectedToBottom()
      requires Valid()
      modifies this
      ensures Valid()
      ensures rotations == old(rotations) && selected == old(selected) && current == old(current)
      ensures dragging == old(dragging) && loaded == old(loaded) && pageCount == old(pageCount)
      ensures order == if selected == {} then old(order) else ToBottom(old(order), selected)
    {
      if selected == {} {
        return;
      }
      RegroupPermutes(order, selected);
      order := GroupToBottom(order, selected);
    }

    /** The list that `move_selected_to_bottom` builds from the two groups. */
    static method GroupToBottom(s: seq<nat>, sel: set<nat>) returns (r: seq<nat>)
      ensures r == ToBottom(s, sel)
    {
      var chosen, rest := Partition(s, sel);
      r := rest + chosen;
    }

    /** `get_page_order`: the original page indices in display order, each page once. */
    method GetPageOrder() returns (r: seq<nat>)
      requires Valid()
      ensures r == order
      ensures |r| == pageCount && Distinct(r)
      ensures forall p: nat :: p in r <==> p < pageCount
    {
      PermutationOfIota(order, pageCount);
      r := order;
    }

    /** `get_page_rotations`: a copy of the rotation map, one normalised angle per page. */
    method GetPageRotations() returns (r: map<nat, int>)
      requires Valid()
      ensures r == rotations
      ensures forall p: nat :: p in r <==> p < pageCount
      ensures forall p :: p in r ==> 0 <= r[p] < 360
    {
      r := rotations;
    }
  }

  /** The split tab's page list: a selection of display positions. */
  class PageSelectView {
    /** `selected_indices`: positions in the list. */
    var selected: set<nat>
    /** `current_page_index`. */
    var current: Option<nat>
    /** The number of entries in `page_items`. */
    var pageCount: nat

    ghost predicate Valid()
      reads this
    {
      (forall i :: i in selected ==> i < pageCount) &&
      (current.Some? ==> current.value < pageCount)
    }

    constructor ()
      ensures Valid() && selected == {} && current.None? && pageCount == 0
    {
      selected := {};
      current := None;
      pageCount := 0;
    }

    /** `load_pdf` for a document of `n` pages: the first page is selected and current. */
    method Load(n: nat)
      modifies this
      ensures Valid() && pageCount == n
      ensures selected == (if n > 0 then {0} else {})
      ensures current == (if n > 0 then Some(0) else None)
    {
      selected := {};
      current := None;
      pageCount := n;
      if n > 0 {
        selected := {0};
        current := Some(0);
      }
    }

    /**
     * `_on_click` on the entry at position `hit`: with Ctrl its membership
     * toggles, without Ctrl it becomes the whole selection; either way it
     * becomes current.
     */
    method Click(hit: Option<nat>, ctrl: bool)
      requires Valid()
      requires hit.Some? ==> hit.value < pageCount
      modifies this
      ensures Valid() && pageCount == old(pageCount)
      ensures hit.None? ==> selected == old(selected) && current == old(current)
      ensures hit.Some? ==> current == hit
      ensures hit.Some? && ctrl ==>
        selected == if hit.value in old(selected) then old(selected) - {hit.value} else old(selected) + {hit.value}
      ensures hit.Some? && !ctrl ==> selected == {hit.value}
    {
      if hit.None? {
        return;
      }
      var idx := hit.value;
      if ctrl {
        if idx in selected {
          selected := selected - {idx};
        } else {
          selected := selected + {idx};
        }
      } else {
        selected := {idx};
      }
      current := Some(idx);
    }

    /** `get_selected_indices`: the selected positions in ascending order. */
    method GetSelectedIndices() returns (r: seq<nat>)
      requires Valid()
      ensures StrictlyIncreasing(r)
      ensures forall i :: i in r <==> i in selected
    {
      r := Ascending(selected, pageCount);
    }
  }
}
