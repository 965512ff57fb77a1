/**
 * The reorder service: `_rotate_page_compat`'s angle normalisation over the
 * three page-rotation interfaces of successive PDF library versions, and
 * `reorder_pdf`, which checks its source and its order and emits
 * `pages[order[k]]` turned by `rotations.get(order[k], 0)`.
 */
module Reorder {
  import opened Wrappers
  import opened Documents
  import opened Progress
  import Split

  /**
   * The first rotation interface the installed library offers that works:
   * `rotate` (turns clockwise by the angle), `rotate_clockwise` (the same),
   * `rotateCounterClockwise` (turns the other way), or none that works.
   * The library refuses an angle that is not a multiple of 90; that refusal
   * is not modelled, since the page views only ever turn by 90 degrees at a
   * time, so every angle that reaches the interface is a multiple of 90.
   */
  datatype RotateApi = Rotate | RotateClockwise | RotateCounterClockwise | NoRotateApi

  /** Python's `angle % 360`, which is never negative for a positive modulus. */
  function Normalized(angle: int): (n: int)
    ensures 0 <= n < 360
    ensures (angle - n) % 360 == 0
  {
    angle % 360
  }

  /** Two rotations that leave a page facing the same way. */
  predicate SameTurn(a: int, b: int)
  {
    (a - b) % 360 == 0
  }

  /** `_rotate_page_compat`: nothing for a zero or whole-turn angle, else the normalised angle through the first working interface. */
  function RotateCompat(page: Page, angle: int, api: RotateApi): (r: Result<Page, int>)
  {
    if angle == 0 || angle % 360 == 0 then Success(page)
    else
      var n := Normalized(angle);
      match api
      case Rotate => Success(page.(rotation := page.rotation + n))
      case RotateClockwise => Success(page.(rotation := page.rotation + n))
      case RotateCounterClockwise => Success(page.(rotation := page.rotation - (360 - n) % 360))
      case NoRotateApi => Failure(angle)
  }

  /**
   * A whole-turn angle leaves the page as it is; otherwise every working
   * interface turns the page by the angle, modulo a full turn, and keeps its
   * content, and with none the rotation fails naming the angle.
   */
  lemma RotateCompatMeaning(page: Page, angle: int, api: RotateApi)
    ensures angle % 360 == 0 ==> RotateCompat(page, angle, api) == Success(page)
    ensures angle % 360 != 0 && api == NoRotateApi ==> RotateCompat(page, angle, api) == Failure(angle)
    ensures api != NoRotateApi ==> RotateCompat(page, angle, api).Success?
    ensures api != NoRotateApi ==> RotateCompat(page, angle, api).value.content == page.content
    ensures api != NoRotateApi ==> SameTurn(RotateCompat(page, angle, api).value.rotation, page.rotation + angle)
  {
    var n := Normalized(angle);
    if angle % 360 != 0 && api == RotateCounterClockwise {
      var ccw := (360 - n) % 360;
      assert ccw == 360 - n;
      assert (page.rotation - ccw) - (page.rotation + angle) == -(angle - n) - 360;
    }
  }

  /** `rotations.get(index, 0) or 0`. */
  function AngleFor(rotations: map<int, int>, index: int): int
  {
    if index in rotations then rotations[index] else 0
  }

  /** Why `reorder_pdf` stopped; nothing is written in every case. */
  datatype ReorderError =
    | Unreadable                                 // PDFReorderError wrapping the reader's failure
    | Encrypted
    | NoPages
    | EmptyOrder
    | IndexOutOfRange(index: int, total: nat)    // reported to the user as index + 1
    | RotateFailed(angle: int)

  /** `ReorderResult(total_pages, output_path)`, with the pages written in place of the path. */
  datatype ReorderResult = ReorderResult(totalPages: nat, written: seq<Page>)

  predicate InRange(order: seq<int>, total: nat)
  {
    forall k :: 0 <= k < |order| ==> 0 <= order[k] < total
  }

  /** The emitting loop over `order`: each page turned, stopping at the first rotation that fails. */
  function Emit(pages: seq<Page>, order: seq<int>, rotations: map<int, int>, api: RotateApi): (r: Result<seq<Page>, ReorderError>)
    requires InRange(order, |pages|)
    ensures r.Success? ==> |r.value| == |order|
  {
    if order == [] then Success([])
    else
      var prev := Emit(pages, order[..|order| - 1], rotations, api);
      if prev.Failure? then prev
      else
        var last := order[|order| - 1];
        match RotateCompat(pages[last], AngleFor(rotations, last), api)
        case Failure(angle) => Failure(RotateFailed(angle))
        case Success(p) => Success(prev.value + [p])
  }

  /** What `reorder_pdf` does, its checks in the source's order. */
  function ReorderSpec(src: Option<Document>, order: seq<int>, rotations: map<int, int>, api: RotateApi): Result<ReorderResult, ReorderError>
  {
    if src.None? then Failure(Unreadable)
    else if src.value.encrypted then Failure(Encrypted)
    else if |src.value.pages| == 0 then Failure(NoPages)
    else if order == [] then Failure(EmptyOrder)
    else
      var total := |src.value.pages|;
      var bad := Split.FirstOutOfRange(order, total);
      if bad < |order| then Failure(IndexOutOfRange(order[bad], total))
      else
        match Emit(src.value.pages, order, rotations, api)
        case Failure(e) => Failure(e)
        case Success(written) => Success(ReorderResult(total, written))
  }

  /** `reorder_pdf`: the checks, the index check loop, then one page and one progress report per entry of `order`. */
  method ReorderPdf(src: Option<Document>, order: seq<int>, rotations: map<int, int>, api: RotateApi)
    returns (r: Result<ReorderResult, ReorderError>, progress: seq<real>)
    ensures r == ReorderSpec(src, order, rotations, api)
    ensures r.Success? ==> progress == Reports(|order|, |order|)
  {
    progress := [];
    if src.None? {
      return Failure(Unreadable), progress;
    }
    var doc := src.value;
    if doc.encrypted {
      return Failure(Encrypted), progress;
    }
    var totalPages := |doc.pages|;
    if totalPages == 0 {
      return Failure(NoPages), progress;
    }
    if order == [] {
      return Failure(EmptyOrder), progress;
    }
    var bad := Split.CheckTargets(order, totalPages);
    if bad < |order| {
      return Failure(IndexOutOfRange(order[bad], totalPages)), progress;
    }
    var emitted;
    emitted, progress := EmitPages(doc.pages, order, rotations, api);
    match emitted
    case Failure(e) => r := Failure(e);
    case Success(written) => r := Success(ReorderResult(totalPages, written));
  }

  /** The loop over `order`: read the page, turn it when its angle is non-zero, append it, report progress. */
  method EmitPages(pages: seq<Page>, order: seq<int>, rotations: map<int, int>, api: RotateApi)
    returns (r: Result<seq<Page>, ReorderError>, progress: seq<real>)
    requires InRange(order, |pages|) && order != []
    ensures r == Emit(pages, order, rotations, api)
    ensures r.Success? ==> progress == Reports(|order|, |order|)
  {
    progress := [];
    var written: seq<Page> := [];
    var total := |order|;
    for i := 0 to total
      invariant Emit(pages, order[..i], rotations, api) == Success(written)
      invariant progress == Reports(i, total)
    {
      assert order[..i + 1][..i] == order[..i];
      var srcIdx := order[i];
      var page := pages[srcIdx];
      var angle := AngleFor(rotations, srcIdx);
      if angle != 0 {
        var turned := RotateCompat(page, angle, api);
        if turned.Failure? {
          EmitStops(pages, order, rotations, api, i);
          return Failure(RotateFailed(turned.error)), progress;
        }
        page := turned.value;
      }
      written := written + [page];
      progress := progress + [Percent(i + 1, total)];
    }
    assert order[..total] == order;
    r := Success(written);
  }

  /** Once a prefix of the order fails, the whole order fails the same way. */
  lemma {:induction false} EmitStops(pages: seq<Page>, order: seq<int>, rotations: map<int, int>, api: RotateApi, i: nat)
    requires InRange(order, |pages|) && i < |order|
    requires Emit(pages, order[..i], rotations, api).Success?
    requires RotateCompat(pages[order[i]], AngleFor(rotations, order[i]), api).Failure?
    ensures Emit(pages, order, rotations, api) == Failure(RotateFailed(RotateCompat(pages[order[i]], AngleFor(rotations, order[i]), api).error))
    decreases |order| - i
  {
    if i == |order| - 1 {
      assert order[..|order| - 1] == order[..i];
    } else {
      var init := order[..|order| - 1];
      assert init[..i] == order[..i];
      assert init[i] == order[i];
      EmitStops(pages, init, rotations, api, i);
    }
  }

  /** A successful emit writes, at position k, source page `order[k]` turned by its angle. */
  lemma {:induction false} EmitWrites(pages: seq<Page>, order: seq<int>, rotations: map<int, int>, api: RotateApi)
    requires InRange(order, |pages|) && Emit(pages, order, rotations, api).Success?
    ensures forall k :: 0 <= k < |order| ==>
      RotateCompat(pages[order[k]], AngleFor(rotations, order[k]), api) == Success(Emit(pages, order, rotations, api).value[k])
  {
    if order != [] {
      var init := order[..|order| - 1];
      EmitWrites(pages, init, rotations, api);
    }
  }

  /** With a working rotation interface, every emit succeeds. */
  lemma {:induction false} EmitSucceeds(pages: seq<Page>, order: seq<int>, rotations: map<int, int>, api: RotateApi)
    requires InRange(order, |pages|) && api != NoRotateApi
    ensures Emit(pages, order, rotations, api).Success?
  {
    if order != [] {
      EmitSucceeds(pages, order[..|order| - 1], rotations, api);
      var last := order[|order| - 1];
      RotateCompatMeaning(pages[last], AngleFor(rotations, last), api);
    }
  }

  /**
   * With a working rotation interface, `reorder_pdf` succeeds exactly when the
   * source reads, is not encrypted, has pages, and the order is a non-empty
   * list of its page indices; it then reports the source's page count and
   * writes, at position k, the content of source page `order[k]` facing
   * `rotations.get(order[k], 0)` further round.
   */
  lemma ReorderMeaning(src: Option<Document>, order: seq<int>, rotations: map<int, int>, api: RotateApi)
    requires api != NoRotateApi
    ensures ReorderSpec(src, order, rotations, api).Success? <==>
      src.Some? && !src.value.encrypted && |src.value.pages| > 0 && order != [] && InRange(order, |src.value.pages|)
    ensures ReorderSpec(src, order, rotations, api).Success? ==>
      ReorderSpec(src, order, rotations, api).value.totalPages == |src.value.pages| &&
      |ReorderSpec(src, order, rotations, api).value.written| == |order|
    ensures ReorderSpec(src, order, rotations, api).Success? ==> forall k :: 0 <= k < |order| ==>
      ReorderSpec(src, order, rotations, api).value.written[k].content == src.value.pages[order[k]].content &&
      SameTurn(ReorderSpec(src, order, rotations, api).value.written[k].rotation,
               src.value.pages[order[k]].rotation + AngleFor(rotations, order[k]))
  {
    if src.Some? && !src.value.encrypted && |src.value.pages| > 0 && order != [] {
      var pages := src.value.pages;
      if InRange(order, |pages|) {
        assert Split.FirstOutOfRange(order, |pages|) == |order|;
        EmitSucceeds(pages, order, rotations, api);
        EmitWrites(pages, order, rotations, api);
        forall k | 0 <= k < |order|
          ensures Emit(pages, order, rotations, api).value[k].content == pages[order[k]].content
          ensures SameTurn(Emit(pages, order, rotations, api).value[k].rotation, pages[order[k]].rotation + AngleFor(rotations, order[k]))
        {
          RotateCompatMeaning(pages[order[k]], AngleFor(rotations, order[k]), api);
        }
      } else {
        var bad := Split.FirstOutOfRange(order, |pages|);
        assert bad < |order|;
      }
    }
  }

  /** Without a working rotation interface, any page with a part-turn angle makes the reorder fail. */
  lemma NoApiFails(src: Option<Document>, order: seq<int>, rotations: map<int, int>, k: nat)
    requires ReorderSpec(src, order, rotations, NoRotateApi).Success?
    requires k < |order|
    ensures AngleFor(rotations, order[k]) % 360 == 0
  {
    var pages := src.value.pages;
    assert Split.FirstOutOfRange(order, |pages|) == |order|;
    EmitWrites(pages, order, rotations, NoRotateApi);
  }

  /** The order [0, n) with no rotations writes the source back page for page. */
  lemma {:induction false} EmitIdentity(pages: seq<Page>, order: seq<int>, api: RotateApi)
    requires |order| <= |pages| && forall k :: 0 <= k < |order| ==> order[k] == k
    ensures InRange(order, |pages|)
    ensures Emit(pages, order, map[], api) == Success(pages[..|order|])
  {
    if order != [] {
      var n := |order|;
      EmitIdentity(pages, order[..n - 1], api);
      assert pages[..n] == pages[..n - 1] + [pages[n - 1]];
    }
  }
}
