/**
 * The page-range syntax of the split feature ("1,3,5-7"): the service parser
 * `parse_page_ranges` and the older parser inside the single-window
 * application, each a loop proved against a specification function.
 */
module PageRanges {
  import opened Wrappers
  import opened Text
  import opened Seqs

  /** Why a page specification was refused (each is a ValueError in the source). */
  datatype RangeError =
    | Malformed(part: string)          // a number that `int()` refuses, or (older parser) a bad range
    | BelowOne(part: string)           // a page number below 1
    | Reversed(part: string)           // a range whose start exceeds its end
    | BeyondTotal(page: int, total: int)  // a page past the last one
    | OutOfRange(page: int, total: int)   // older parser: a single page outside 1..total

  type PartResult = Result<set<nat>, RangeError>

  /** The 1-based pages start..end as 0-based indices. */
  function Span(start: int, end: int): (r: set<nat>)
    requires 1 <= start
    ensures forall q: nat :: q in r <==> start - 1 <= q < end
    decreases end - start
  {
    if end < start then {} else Span(start, end - 1) + {end - 1}
  }

  /** `[p.strip() for p in text.split(",") if p.strip()]` */
  function Parts(text: string): seq<string>
  {
    NonBlank(SplitOn(text, ','))
  }

  /** The pages one comma-separated part names, or the error `parse_page_ranges` raises for it. */
  function PartPages(part: string, total: int): (r: PartResult)
    ensures r.Success? ==> forall q :: q in r.value ==> q < total
  {
    if '-' in part then
      var halves := SplitOnce(part, '-');
      RangePages(part, ParseInt(Strip(halves.0)), ParseInt(Strip(halves.1)), total)
    else SinglePages(part, ParseInt(part), total)
  }

  /** A part "a-b" whose halves `int()` read as `start` and `end`. */
  function RangePages(part: string, start: Option<int>, end: Option<int>, total: int): (r: PartResult)
    ensures r.Success? ==> forall q :: q in r.value ==> q < total
    ensures r.Failure? <==>
      start.None? || end.None? || start.value < 1 || end.value < 1 || start.value > end.value || end.value > total
    ensures r.Success? ==> forall q: nat :: q in r.value <==> start.value - 1 <= q < end.value
    ensures start.None? || end.None? ==> r == Failure(Malformed(part))
    ensures start.Some? && end.Some? && (start.value < 1 || end.value < 1) ==> r == Failure(BelowOne(part))
    ensures start.Some? && end.Some? && 1 <= start.value && 1 <= end.value && start.value > end.value ==> r == Failure(Reversed(part))
    ensures start.Some? && end.Some? && 1 <= start.value <= end.value && end.value > total ==> r == Failure(BeyondTotal(end.value, total))
  {
    if start.None? || end.None? then Failure(Malformed(part))
    else if start.value < 1 || end.value < 1 then Failure(BelowOne(part))
    else if start.value > end.value then Failure(Reversed(part))
    else if end.value > total then Failure(BeyondTotal(end.value, total))
    else Success(Span(start.value, end.value))
  }

  /** A part without "-" that `int()` reads as `page`. */
  function SinglePages(part: string, page: Option<int>, total: int): (r: PartResult)
    ensures r.Success? ==> forall q :: q in r.value ==> q < total
    ensures r.Success? <==> page.Some? && 1 <= page.value <= total
    ensures r.Success? ==> r.value == {page.value - 1}
    ensures page.None? ==> r == Failure(Malformed(part))
    ensures page.Some? && page.value < 1 ==> r == Failure(BelowOne(part))
    ensures page.Some? && 1 <= page.value && page.value > total ==> r == Failure(BeyondTotal(page.value, total))
  {
    match page
    case None => Failure(Malformed(part))
    case Some(p) =>
      if p < 1 then Failure(BelowOne(part))
      else if p > total then Failure(BeyondTotal(p, total))
      else Success({p - 1})
  }

  /** The outcome of each part under `parse_page_ranges`. */
  function Outcomes(parts: seq<string>, total: int): (r: seq<PartResult>)
    ensures |r| == |parts|
    ensures forall k :: 0 <= k < |parts| ==> r[k] == PartPages(parts[k], total)
  {
    seq(|parts|, k requires 0 <= k < |parts| => PartPages(parts[k], total))
  }

  /** The outcome of each part under the older parser. */
  function LegacyOutcomes(parts: seq<string>, total: int): (r: seq<PartResult>)
    ensures |r| == |parts|
    ensures forall k :: 0 <= k < |parts| ==> r[k] == LegacyPartPages(parts[k], total)
  {
    seq(|parts|, k requires 0 <= k < |parts| => LegacyPartPages(parts[k], total))
  }

  /** Parts processed left to right: the first failure, or the union of all pages. */
  function Combine(rs: seq<PartResult>): PartResult
  {
    if rs == [] then Success({})
    else if rs[0].Failure? then Failure(rs[0].error)
    else
      match Combine(rs[1..])
      case Failure(e) => Failure(e)
      case Success(v) => Success(rs[0].value + v)
  }

  /** The outcome of the remaining parts once `acc` has been collected. */
  function Then(acc: set<nat>, r: PartResult): PartResult
  {
    if r.Failure? then r else Success(acc + r.value)
  }

  /** What `parse_page_ranges(text, total_pages)` returns or raises: sorted, without repeats, in range. */
  function ParseSpec(text: string, total: int): (r: Result<seq<nat>, RangeError>)
    ensures r.Success? ==> StrictlyIncreasing(r.value)
    ensures r.Success? ==> forall k :: 0 <= k < |r.value| ==> r.value[k] < total
  {
    if total <= 0 then Success([])
    else
      var t := Strip(text);
      if t == [] then Success([])
      else
        Sorted(Combine(Outcomes(Parts(t), total)), total)
  }

  /** `sorted(result_set)` once every part has been read, or the error raised on the way. */
  function Sorted(c: PartResult, bound: nat): (r: Result<seq<nat>, RangeError>)
    ensures r.Success? ==> StrictlyIncreasing(r.value)
    ensures r.Success? ==> forall k :: 0 <= k < |r.value| ==> r.value[k] < bound
  {
    match c
    case Failure(e) => Failure(e)
    case Success(v) => Success(Ascending(v, bound))
  }

  /** One step of the fold: the outcome of the first part decides, the rest follows. */
  lemma CombineStep(acc: set<nat>, rs: seq<PartResult>)
    requires rs != []
    ensures rs[0].Failure? ==> Then(acc, Combine(rs)) == Failure(rs[0].error)
    ensures rs[0].Success? ==> Then(acc, Combine(rs)) == Then(acc + rs[0].value, Combine(rs[1..]))
  {
    if rs[0].Success? {
      match Combine(rs[1..])
      case Failure(e) =>
      case Success(w) =>
        assert acc + (rs[0].value + w) == (acc + rs[0].value) + w;
    }
  }

  lemma ThenEmpty(r: PartResult)
    ensures Then({}, r) == r
  {
    if r.Success? {
      assert {} + r.value == r.value;
    }
  }

  /** `for page_num in range(start, end + 1): result_set.add(page_num - 1)` */
  method AddSpan(acc: set<nat>, start: int, end: int) returns (r: set<nat>)
    requires 1 <= start
    ensures r == acc + Span(start, end)
  {
    r := acc;
    if start <= end {
      for pageNum := start to end + 1
        invariant r == acc + Span(start, pageNum - 1)
      {
        r := r + {pageNum - 1};
      }
    }
  }

  /** The body of the loop in `parse_page_ranges` for one part: add its pages to `acc` or raise. */
  method AddPart(part: string, totalPages: int, acc: set<nat>) returns (r: PartResult)
    ensures r == Then(acc, PartPages(part, totalPages))
  {
    if '-' in part {
      var halves := SplitOnce(part, '-');
      var start := ParseInt(Strip(halves.0));
      var end := ParseInt(Strip(halves.1));
      r := AddRange(part, start, end, totalPages, acc);
    } else {
      var pageNum := ParseInt(part);
      r := AddSingle(part, pageNum, totalPages, acc);
    }
  }

  /** A range part once `int()` has read its halves: the three checks, then every page of the range. */
  method AddRange(part: string, start: Option<int>, end: Option<int>, totalPages: int, acc: set<nat>)
    returns (r: PartResult)
    ensures r == Then(acc, RangePages(part, start, end, totalPages))
  {
    if start.None? || end.None? {
      return Failure(Malformed(part));
    }
    if start.value < 1 || end.value < 1 {
      return Failure(BelowOne(part));
    }
    if start.value > end.value {
      return Failure(Reversed(part));
    }
    if end.value > totalPages {
      return Failure(BeyondTotal(end.value, totalPages));
    }
    var resultSet := AddSpan(acc, start.value, end.value);
    return Success(resultSet);
  }

  /** A single-page part once `int()` has read it. */
  method AddSingle(part: string, pageNum: Option<int>, totalPages: int, acc: set<nat>)
    returns (r: PartResult)
    ensures r == Then(acc, SinglePages(part, pageNum, totalPages))
  {
    if pageNum.None? {
      return Failure(Malformed(part));
    }
    if pageNum.value < 1 {
      return Failure(BelowOne(part));
    }
    if pageNum.value > totalPages {
      return Failure(BeyondTotal(pageNum.value, totalPages));
    }
    return Success(acc + {pageNum.value - 1});
  }

  /** The parts before `i` have been read into `acc` and the fold is still on course. */
  predicate FoldedUpTo(all: seq<PartResult>, acc: set<nat>, i: nat)
  {
    i <= |all| && Combine(all) == Then(acc, Combine(all[i..]))
  }

  lemma FoldStart(all: seq<PartResult>)
    ensures FoldedUpTo(all, {}, 0)
  {
    assert all[0..] == all;
    ThenEmpty(Combine(all));
  }

  /** Reading part `i`: its failure is the fold's, its pages join `acc`. */
  lemma FoldStep(all: seq<PartResult>, acc: set<nat>, i: nat)
    requires FoldedUpTo(all, acc, i) && i < |all|
    ensures all[i].Failure? ==> Combine(all) == Failure(all[i].error)
    ensures all[i].Success? ==> FoldedUpTo(all, acc + all[i].value, i + 1)
  {
    assert all[i..][1..] == all[i + 1..];
    CombineStep(acc, all[i..]);
  }

  lemma FoldEnd(all: seq<PartResult>, acc: set<nat>)
    requires FoldedUpTo(all, acc, |all|)
    ensures Combine(all) == Success(acc)
  {
    assert all[|all|..] == [];
    assert acc + {} == acc;
  }

  /** The loop of `parse_page_ranges` over the parts: every part's pages, or the first error. */
  method CollectParts(parts: seq<string>, totalPages: int) returns (c: PartResult)
    ensures c == Combine(Outcomes(parts, totalPages))
  {
    ghost var all := Outcomes(parts, totalPages);
    var resultSet: set<nat> := {};
    FoldStart(all);
    for i := 0 to |parts|
      invariant FoldedUpTo(all, resultSet, i)
    {
      FoldStep(all, resultSet, i);
      var step := AddPart(parts[i], totalPages, resultSet);
      if step.Failure? {
        return Failure(step.error);
      }
      resultSet := step.value;
    }
    FoldEnd(all, resultSet);
    return Success(resultSet);
  }

  /** `parse_page_ranges`: the two empty answers, one pass over the parts, then the sorted pages. */
  method ParsePageRanges(text: string, totalPages: int) returns (r: Result<seq<nat>, RangeError>)
    ensures r == ParseSpec(text, totalPages)
  {
    if totalPages <= 0 {
      return Success([]);
    }
    var t := Strip(text);
    if t == [] {
      return Success([]);
    }
    var c := CollectParts(Parts(t), totalPages);
    if c.Failure? {
      return Failure(c.error);
    }
    return Success(Ascending(c.value, totalPages));
  }

  // ----- the older parser of the single-window application -----

  /**
   * One part under the older parser: `int()` without a prior strip, a single
   * "bad range" error for start < 1, end < 1 or start > end, and a page check
   * inside the range loop, which stops at the first page past the end.
   */
  function LegacyPartPages(part: string, total: int): (r: PartResult)
    ensures r.Success? ==> r.value != {} && forall q :: q in r.value ==> q < total
  {
    if '-' in part then
      var halves := SplitOnce(part, '-');
      LegacyRangePages(part, ParseInt(halves.0), ParseInt(halves.1), total)
    else LegacySinglePages(ParseInt(part), part, total)
  }

  function LegacyRangePages(part: string, start: Option<int>, end: Option<int>, total: int): (r: PartResult)
    ensures r.Success? ==> r.value != {} && forall q :: q in r.value ==> q < total
  {
    if start.None? || end.None? then Failure(Malformed(part))
    else if start.value < 1 || end.value < 1 || start.value > end.value then Failure(Malformed(part))
    else CheckedSpan(start.value, end.value, total)
  }

  /** The older range loop: the first page past `total` raises, otherwise every page is added. */
  function CheckedSpan(start: int, end: int, total: int): (r: PartResult)
    requires 1 <= start <= end
    ensures r.Success? ==> r.value != {} && forall q :: q in r.value ==> q < total
  {
    if end > total then Failure(BeyondTotal(if start > total then start else total + 1, total))
    else Success(Span(start, end))
  }

  /** `for p in range(start, end + 1): if p > total_pages: raise ...; result.add(p - 1)` */
  method AddCheckedSpan(acc: set<nat>, start: int, end: int, totalPages: int) returns (r: PartResult)
    requires 1 <= start <= end
    ensures r == Then(acc, CheckedSpan(start, end, totalPages))
  {
    var result := acc;
    for p := start to end + 1
      invariant p > start ==> p - 1 <= totalPages
      invariant result == acc + Span(start, p - 1)
    {
      if p > totalPages {
        return Failure(BeyondTotal(p, totalPages));
      }
      result := result + {p - 1};
    }
    return Success(result);
  }

  function LegacySinglePages(page: Option<int>, part: string, total: int): (r: PartResult)
    ensures r.Success? ==> r.value != {} && forall q :: q in r.value ==> q < total
  {
    match page
    case None => Failure(Malformed(part))
    case Some(p) =>
      if p < 1 || p > total then Failure(OutOfRange(p, total))
      else Success({p - 1})
  }

  /** What the older `_parse_page_ranges(text, total_pages)` returns or raises. */
  function LegacySpec(text: string, total: int): (r: Result<seq<nat>, RangeError>)
    ensures r.Success? ==> StrictlyIncreasing(r.value)
    ensures r.Success? ==> forall k :: 0 <= k < |r.value| ==> r.value[k] < total
  {
    Sorted(Combine(LegacyOutcomes(Parts(text), total)), if total > 0 then total else 0)
  }

  /** The body of the older loop for one part: add its pages to `acc` or raise. */
  method LegacyAddPart(part: string, totalPages: int, acc: set<nat>) returns (r: PartResult)
    ensures r == Then(acc, LegacyPartPages(part, totalPages))
  {
    if '-' in part {
      var halves := SplitOnce(part, '-');
      var start := ParseInt(halves.0);
      var end := ParseInt(halves.1);
      if start.None? || end.None? {
        return Failure(Malformed(part));
      }
      if start.value < 1 || end.value < 1 || start.value > end.value {
        return Failure(Malformed(part));
      }
      r := AddCheckedSpan(acc, start.value, end.value, totalPages);
    } else {
      var p := ParseInt(part);
      if p.None? {
        return Failure(Malformed(part));
      }
      if p.value < 1 || p.value > totalPages {
        return Failure(OutOfRange(p.value, totalPages));
      }
      r := Success(acc + {p.value - 1});
    }
  }

  /** The loop of the older parser over the parts. */
  method LegacyCollectParts(parts: seq<string>, totalPages: int) returns (c: PartResult)
    ensures c == Combine(LegacyOutcomes(parts, totalPages))
  {
    ghost var all := LegacyOutcomes(parts, totalPages);
    var result: set<nat> := {};
    FoldStart(all);
    for i := 0 to |parts|
      invariant FoldedUpTo(all, result, i)
    {
      FoldStep(all, result, i);
      var step := LegacyAddPart(parts[i], totalPages, result);
      if step.Failure? {
        return Failure(step.error);
      }
      result := step.value;
    }
    FoldEnd(all, result);
    return Success(result);
  }

  /** The older `_parse_page_ranges`: no empty-text shortcut, the same fold, then the sorted pages. */
  method LegacyParsePageRanges(text: string, totalPages: int) returns (r: Result<seq<nat>, RangeError>)
    ensures r == LegacySpec(text, totalPages)
  {
    var c := LegacyCollectParts(Parts(text), totalPages);
    if c.Failure? {
      return Failure(c.error);
    }
    return Success(Ascending(c.value, if totalPages > 0 then totalPages else 0));
  }

  // ----- properties -----

  /** The fold succeeds exactly when every part does; it then holds every part's pages, else the first error. */
  lemma {:induction false} CombineMeaning(rs: seq<PartResult>)
    ensures Combine(rs).Success? <==> forall k :: 0 <= k < |rs| ==> rs[k].Success?
    ensures Combine(rs).Success? ==>
      forall x :: x in Combine(rs).value <==> exists k :: 0 <= k < |rs| && rs[k].Success? && x in rs[k].value
    ensures Combine(rs).Failure? ==>
      exists k :: 0 <= k < |rs| && rs[k].Failure? && Combine(rs).error == rs[k].error &&
        forall j :: 0 <= j < k ==> rs[j].Success?
  {
    if rs != [] && rs[0].Success? {
      var tail := rs[1..];
      CombineMeaning(tail);
      assert forall k :: 1 <= k < |rs| ==> rs[k] == tail[k - 1];
      if Combine(rs).Success? {
        forall x | x in Combine(rs).value
          ensures exists k :: 0 <= k < |rs| && rs[k].Success? && x in rs[k].value
        {
          if x !in rs[0].value {
            var k :| 0 <= k < |tail| && tail[k].Success? && x in tail[k].value;
            assert rs[k + 1] == tail[k];
          }
        }
        forall x, k | 0 <= k < |rs| && rs[k].Success? && x in rs[k].value
          ensures x in Combine(rs).value
        {
          if k > 0 {
            assert tail[k - 1] == rs[k];
          }
        }
      } else if tail != [] {
        var k :| 0 <= k < |tail| && tail[k].Failure? && Combine(tail).error == tail[k].error &&
          forall j :: 0 <= j < k ==> tail[j].Success?;
        assert rs[k + 1] == tail[k];
        assert forall j :: 1 <= j < k + 1 ==> rs[j] == tail[j - 1];
      }
    } else if rs != [] {
      assert rs[0].Failure?;
    }
  }

  /**
   * A page is in the result exactly when some part of the text names it, and
   * the text is refused exactly when some part is, with the first such part's error.
   */
  lemma ParseSpecMeaning(text: string, total: int)
    requires total > 0
    ensures ParseSpec(text, total).Success? <==>
      forall k :: 0 <= k < |Parts(Strip(text))| ==> PartPages(Parts(Strip(text))[k], total).Success?
    ensures ParseSpec(text, total).Success? ==> forall x: nat ::
      x in ParseSpec(text, total).value <==>
        exists k :: 0 <= k < |Parts(Strip(text))| && PartPages(Parts(Strip(text))[k], total).Success? &&
          x in PartPages(Parts(Strip(text))[k], total).value
    ensures ParseSpec(text, total).Failure? ==>
      exists k :: 0 <= k < |Parts(Strip(text))| &&
        PartPages(Parts(Strip(text))[k], total) == Failure(ParseSpec(text, total).error) &&
        forall j :: 0 <= j < k ==> PartPages(Parts(Strip(text))[j], total).Success?
  {
    ParseSpecFold(text, total);
    SortedMeaning(Outcomes(Parts(Strip(text)), total), total);
  }

  /** The sorted fold holds exactly the pages of the parts, or the first part's error. */
  lemma SortedMeaning(rs: seq<PartResult>, total: nat)
    requires forall k :: 0 <= k < |rs| && rs[k].Success? ==> forall q :: q in rs[k].value ==> q < total
    ensures Sorted(Combine(rs), total).Success? <==> forall k :: 0 <= k < |rs| ==> rs[k].Success?
    ensures Sorted(Combine(rs), total).Success? ==> forall x: nat ::
      x in Sorted(Combine(rs), total).value <==> exists k :: 0 <= k < |rs| && rs[k].Success? && x in rs[k].value
    ensures Sorted(Combine(rs), total).Failure? ==>
      exists k :: 0 <= k < |rs| && rs[k] == Failure(Sorted(Combine(rs), total).error) &&
        forall j :: 0 <= j < k ==> rs[j].Success?
  {
    CombineMeaning(rs);
    var c := Combine(rs);
    if c.Failure? {
      var k :| 0 <= k < |rs| && rs[k].Failure? && c.error == rs[k].error &&
        forall j :: 0 <= j < k ==> rs[j].Success?;
      assert rs[k] == Failure(c.error);
    } else {
      forall x: nat
        ensures x in Ascending(c.value, total) <==> x in c.value
      {
        if x in c.value {
          var k :| 0 <= k < |rs| && rs[k].Success? && x in rs[k].value;
        }
      }
    }
  }

  /** With pages to choose from, the result is the fold over the parts of the stripped text, sorted. */
  lemma ParseSpecFold(text: string, total: int)
    requires total > 0
    ensures ParseSpec(text, total) == Sorted(Combine(Outcomes(Parts(Strip(text)), total)), total)
  {
    if Strip(text) == [] {
      PartsOfEmpty();
      assert Outcomes(Parts(Strip(text)), total) == [];
      AscendingEmpty(total);
    }
  }

  lemma PartsOfEmpty()
    ensures Parts("") == []
  {
    assert SplitOn("", ',') == [""];
    assert Strip("") == [];
  }

  lemma AscendingEmpty(bound: nat)
    ensures Ascending({}, bound) == []
  {
    var r := Ascending({}, bound);
    assert forall x :: x !in r;
  }

  /** A part means the same to both parsers, since `int()` strips its own argument. */
  lemma PartAgrees(part: string, total: int)
    ensures PartPages(part, total).Success? <==> LegacyPartPages(part, total).Success?
    ensures PartPages(part, total).Success? ==> PartPages(part, total).value == LegacyPartPages(part, total).value
  {
    if '-' in part {
      var halves := SplitOnce(part, '-');
      StripIdempotent(halves.0);
      StripIdempotent(halves.1);
      RangeAgrees(part, ParseInt(halves.0), ParseInt(halves.1), total);
    }
  }

  lemma RangeAgrees(part: string, start: Option<int>, end: Option<int>, total: int)
    ensures RangePages(part, start, end, total).Success? <==> LegacyRangePages(part, start, end, total).Success?
    ensures RangePages(part, start, end, total).Success? ==>
      RangePages(part, start, end, total).value == LegacyRangePages(part, start, end, total).value
  {
  }

  lemma {:induction false} CombineAgrees(a: seq<PartResult>, b: seq<PartResult>)
    requires |a| == |b|
    requires forall k :: 0 <= k < |a| ==> (a[k].Success? <==> b[k].Success?)
    requires forall k :: 0 <= k < |a| && a[k].Success? ==> a[k].value == b[k].value
    ensures Combine(a).Success? <==> Combine(b).Success?
    ensures Combine(a).Success? ==> Combine(a).value == Combine(b).value
  {
    if a != [] {
      CombineAgrees(a[1..], b[1..]);
    }
  }

  /** On a document with pages, the older parser accepts the same texts and returns the same pages. */
  lemma LegacyAgrees(text: string, total: int)
    requires total > 0
    ensures ParseSpec(text, total).Success? <==> LegacySpec(text, total).Success?
    ensures ParseSpec(text, total).Success? ==> ParseSpec(text, total).value == LegacySpec(text, total).value
  {
    NonBlankIgnoresOuterSpace(text, ',');
    var parts := Parts(text);
    assert parts == Parts(Strip(text));
    var a := Outcomes(parts, total);
    var b := LegacyOutcomes(parts, total);
    forall k | 0 <= k < |parts|
      ensures (a[k].Success? <==> b[k].Success?) && (a[k].Success? ==> a[k].value == b[k].value)
    {
      PartAgrees(parts[k], total);
    }
    CombineAgrees(a, b);
    if Strip(text) == [] {
      assert SplitOn(Strip(text), ',') == [""];
      assert parts == [];
      AscendingEmpty(total);
    }
  }

  /**
   * On a document without pages the service returns no pages whatever the text,
   * while the older parser refuses every text that names a page.
   */
  lemma LegacyWithoutPages(text: string, total: int)
    requires total <= 0
    ensures ParseSpec(text, total) == Success([])
    ensures LegacySpec(text, total).Success? <==> Parts(text) == []
  {
    var parts := Parts(text);
    var rs := LegacyOutcomes(parts, total);
    CombineMeaning(rs);
    if parts != [] {
      assert rs[0].Failure?;
    }
  }

  /** The example the page field shows: "1,3,5-7" on a ten-page document selects the first, third and fifth to seventh pages. */
  lemma DocumentedExample()
    ensures ParseSpec("1,3,5-7", 10) == Success([0, 2, 4, 5, 6])
  {
    ExampleParts();
    ExampleOutcomes();
    ExampleSorted();
  }

  lemma ExampleSplit3()
    ensures SplitOn(",5-7", ',') == ["", "5-7"]
  {
    SplitNoSep("5-7", ',');
    SplitCons(',', "5-7", ',');
    assert ",5-7" == [','] + "5-7";
  }

  /** One step of `split`: a character that is not the separator joins the first field. */
  lemma SplitStep(c: char, s: string, first: string, rest: seq<string>)
    requires c != ',' && SplitOn(s, ',') == [first] + rest
    ensures SplitOn([c] + s, ',') == [[c] + first] + rest
  {
    SplitCons(c, s, ',');
  }

  /** One step of `split`: a separator starts a new empty field. */
  lemma SplitSepStep(s: string, fields: seq<string>)
    requires SplitOn(s, ',') == fields
    ensures SplitOn([','] + s, ',') == [""] + fields
  {
    SplitCons(',', s, ',');
  }

  lemma ExampleSplit2()
    ensures SplitOn("3,5-7", ',') == ["3", "5-7"]
  {
    ExampleSplit3();
    SplitStep('3', ",5-7", "", ["5-7"]);
    assert "3,5-7" == ['3'] + ",5-7";
    assert ['3'] + "" == "3";
  }

  lemma ExampleSplit1()
    ensures SplitOn(",3,5-7", ',') == ["", "3", "5-7"]
  {
    ExampleSplit2();
    SplitSepStep("3,5-7", ["3", "5-7"]);
    assert ",3,5-7" == [','] + "3,5-7";
  }

  lemma ExampleSplit0()
    ensures SplitOn("1,3,5-7", ',') == ["1", "3", "5-7"]
  {
    ExampleSplit1();
    SplitStep('1', ",3,5-7", "", ["3", "5-7"]);
    assert "1,3,5-7" == ['1'] + ",3,5-7";
    assert ['1'] + "" == "1";
  }

  /** Three stripped, non-blank fields all survive. */
  lemma ThreeFieldsKept(text: string, a: string, b: string, c: string)
    requires SplitOn(text, ',') == [a, b, c]
    requires a != [] && b != [] && c != [] && Strip(a) == a && Strip(b) == b && Strip(c) == c
    ensures Parts(text) == [a, b, c]
  {
    NonBlankKeepsStripped([a, b, c]);
  }

  lemma ExampleStrip()
    ensures Strip("1,3,5-7") == "1,3,5-7"
  {
    StripUnpadded("1,3,5-7");
  }

  lemma ExampleParts()
    ensures Strip("1,3,5-7") == "1,3,5-7"
    ensures Parts("1,3,5-7") == ["1", "3", "5-7"]
  {
    ExampleStrip();
    assert Parts("1,3,5-7") == ["1", "3", "5-7"] by {
      ExampleSplit0();
      StripUnpadded("1");
      StripUnpadded("3");
      StripUnpadded("5-7");
      ThreeFieldsKept("1,3,5-7", "1", "3", "5-7");
    }
  }

  /** A part without a dash that `int()` reads as an in-range page. */
  lemma SingleSelects(part: string, p: int, total: int)
    requires '-' !in part && ParseInt(part) == Some(p) && 1 <= p <= total
    ensures PartPages(part, total) == Success({p - 1})
  {
  }

  /** A part "a-b" whose halves `int()` reads as an in-range, ascending pair. */
  lemma RangeSelects(a: string, b: string, s: int, e: int, total: int)
    requires '-' !in a && ParseInt(a) == Some(s) && ParseInt(b) == Some(e)
    requires 1 <= s <= e <= total
    ensures PartPages(a + "-" + b, total) == Success(Span(s, e))
  {
    SplitOnceAt(a, '-', b);
    StripIdempotent(a);
    StripIdempotent(b);
    assert ParseInt(Strip(a)) == ParseInt(a);
  }

  lemma ExampleOne()
    ensures PartPages("1", 10) == Success({0})
  {
    ParseDigit('1');
    SingleSelects("1", 1, 10);
  }

  lemma ExampleThree()
    ensures PartPages("3", 10) == Success({2})
  {
    ParseDigit('3');
    SingleSelects("3", 3, 10);
  }

  lemma ExampleSpan()
    ensures Span(5, 7) == {4, 5, 6}
  {
    var v := Span(5, 7);
    assert forall q: nat :: q in v <==> 4 <= q < 7;
  }

  lemma ExampleRange()
    ensures PartPages("5-7", 10) == Success({4, 5, 6})
  {
    ExampleDash();
    ExampleRangeOf("5", "7", "5-7");
    ExampleSpan();
  }

  lemma ExampleDash()
    ensures "5" + "-" + "7" == "5-7"
  {
  }

  lemma ExampleRangeOf(a: string, b: string, part: string)
    requires a == "5" && b == "7" && part == a + "-" + b
    ensures PartPages(part, 10) == Success(Span(5, 7))
  {
    ParseDigit('5');
    ParseDigit('7');
    assert [a[0]] == a && [b[0]] == b;
    RangeSelects(a, b, 5, 7, 10);
  }

  lemma ExampleOutcomes()
    ensures Combine(Outcomes(["1", "3", "5-7"], 10)) == Success({0, 2, 4, 5, 6})
  {
    ExampleOne();
    ExampleThree();
    ExampleRange();
    OutcomesThree("1", "3", "5-7", 10);
    ExampleUnion({0}, {2}, {4, 5, 6});
  }

  lemma ExampleUnion(a: set<nat>, b: set<nat>, c: set<nat>)
    requires a == {0} && b == {2} && c == {4, 5, 6}
    ensures a + b + c == {0, 2, 4, 5, 6}
  {
  }

  /** Three parts that each select pages select the union of their pages. */
  lemma OutcomesThree(p0: string, p1: string, p2: string, total: int)
    requires PartPages(p0, total).Success? && PartPages(p1, total).Success? && PartPages(p2, total).Success?
    ensures Combine(Outcomes([p0, p1, p2], total)) ==
      Success(PartPages(p0, total).value + PartPages(p1, total).value + PartPages(p2, total).value)
  {
    var parts := [p0, p1, p2];
    var rs := Outcomes(parts, total);
    assert rs[0] == PartPages(p0, total) && rs[1] == PartPages(p1, total) && rs[2] == PartPages(p2, total);
    CombineUnion3(rs);
  }

  lemma CombineUnion3(rs: seq<PartResult>)
    requires |rs| == 3 && rs[0].Success? && rs[1].Success? && rs[2].Success?
    ensures Combine(rs) == Success(rs[0].value + rs[1].value + rs[2].value)
  {
    var t1 := rs[1..];
    var t2 := t1[1..];
    assert t1[0] == rs[1] && t2[0] == rs[2] && t2[1..] == [];
    assert Combine(t2) == Success(rs[2].value + {});
    assert Combine(t1) == Success(rs[1].value + (rs[2].value + {}));
    assert rs[0].value + (rs[1].value + (rs[2].value + {})) == rs[0].value + rs[1].value + rs[2].value;
  }

  lemma ExampleSorted()
    ensures Sorted(Success({0, 2, 4, 5, 6}), 10) == Success([0, 2, 4, 5, 6])
  {
    AscendingIs({0, 2, 4, 5, 6}, 10, [0, 2, 4, 5, 6]);
  }

  /** `Ascending` is the one ascending listing of the members below the bound. */
  lemma AscendingIs(v: set<nat>, bound: nat, w: seq<int>)
    requires StrictlyIncreasing(w)
    requires forall x :: x in w <==> x in v && x < bound
    ensures Ascending(v, bound) == w
  {
    AscendingUnique(Ascending(v, bound), w);
  }
}
