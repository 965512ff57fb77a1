/**
 * Ghostscript compression: the five-rung preset ladder, the level that picks
 * the starting rung, the search that walks down the ladder until the output
 * fits a target size, the batch over several files, and the compress tab's
 * task list. Ghostscript itself is an oracle from a source and a preset to
 * the output size in bytes (or a failure), and `stat` an oracle from a path
 * to its size (or "missing").
 */
module Compress {
  import opened Wrappers
  import opened Text
  import opened Naming
  import opened Seqs

  /** `COMPRESSION_PRESETS`, from the least to the most compression. */
  const Presets: seq<string> := ["/prepress", "/printer", "/default", "/ebook", "/screen"]

  /** Output size of Ghostscript for a source and a preset; `None` when Ghostscript fails. */
  type Compressor = (FilePath, string) -> Option<nat>

  /** Size of the file at a path; `None` when it does not exist. */
  type Stat = FilePath -> Option<nat>

  datatype CompressError =
    | SourceMissing(src: FilePath)
    | GhostscriptFailed(src: FilePath, setting: string)
    | LengthMismatch

  /** `CompressResult`, with sizes in bytes. */
  datatype Compressed = Compressed(src: FilePath, out: FilePath, origBytes: nat, newBytes: nat, setting: string)

  // ----- the starting rung -----

  /** `level_to_start_index`: the level clamped into 1..5, minus one. */
  function LevelToStartIndex(level: int): (r: nat)
    ensures r < |Presets|
    ensures 1 <= level <= 5 ==> r == level - 1
    ensures level < 1 ==> r == 0
    ensures level > 5 ==> r == |Presets| - 1
  {
    if level <= 1 then 0 else if level >= 5 then 4 else level - 1
  }

  /** The if-chain of the older application's `level_to_start_index`. */
  function LevelStart0107(lv: int): (r: nat)
    ensures r < |Presets|
  {
    if lv <= 1 then 0
    else if lv == 2 then 1
    else if lv == 3 then 2
    else if lv == 4 then 3
    else 4
  }

  /** The two versions pick the same rung for every level. */
  lemma LevelStartsAgree(level: int)
    ensures LevelToStartIndex(level) == LevelStart0107(level)
  {
  }

  /** The slider value after release: 3 when it cannot be read, then clamped into 1..5. */
  function SliderLevel(read: Option<int>): (r: int)
    ensures 1 <= r <= 5
    ensures read.None? ==> r == 3
    ensures read.Some? && 1 <= read.value <= 5 ==> r == read.value
    ensures read.Some? && read.value < 1 ==> r == 1
    ensures read.Some? && read.value > 5 ==> r == 5
  {
    var v := if read.Some? then read.value else 3;
    if v < 1 then 1 else if v > 5 then 5 else v
  }

  /** A clamped slider level starts exactly one rung below its value. */
  lemma SliderStartsAtLevel(read: Option<int>)
    ensures LevelToStartIndex(SliderLevel(read)) == SliderLevel(read) - 1
  {
  }

  // ----- the search down the ladder -----

  /** Bytes to megabytes (`/ (1024 * 1024)`). */
  function Mb(bytes: nat): real
  {
    bytes as real / 1048576.0
  }

  /** `max(0, min(start_index, last_idx))`. */
  function StartAt(start: int, count: nat): (r: nat)
    requires count > 0
    ensures r < count
    ensures 0 <= start < count ==> r == start
  {
    if start < 0 then 0 else if start > count - 1 then count - 1 else start
  }

  /** The loop ends at rung `i` when Ghostscript fails there, the output fits, or no rung is left. */
  predicate StopsAt(src: FilePath, gs: Compressor, presets: seq<string>, i: nat, target: real)
    requires i < |presets|
  {
    gs(src, presets[i]).None? || Mb(gs(src, presets[i]).value) <= target || i == |presets| - 1
  }

  /** The rung the target-size loop tries last, starting from rung `i`. */
  function LastTried(src: FilePath, gs: Compressor, presets: seq<string>, i: nat, target: real): (j: nat)
    requires i < |presets|
    ensures i <= j < |presets|
    decreases |presets| - i
  {
    if StopsAt(src, gs, presets, i, target) then i else LastTried(src, gs, presets, i + 1, target)
  }

  /**
   * `LastTried` is the first rung from `i` on where the loop stops: at every
   * rung before it Ghostscript succeeded with an output larger than the
   * target, and at it the loop stops.
   */
  lemma {:induction false} LastTriedMeaning(src: FilePath, gs: Compressor, presets: seq<string>, i: nat, target: real)
    requires i < |presets|
    ensures StopsAt(src, gs, presets, LastTried(src, gs, presets, i, target), target)
    ensures forall k :: i <= k < LastTried(src, gs, presets, i, target) ==>
      gs(src, presets[k]).Some? && Mb(gs(src, presets[k]).value) > target
    decreases |presets| - i
  {
    if !StopsAt(src, gs, presets, i, target) {
      LastTriedMeaning(src, gs, presets, i + 1, target);
    }
  }

  /** Any rung with the two properties of `LastTriedMeaning` is `LastTried`. */
  lemma {:induction false} LastTriedUnique(src: FilePath, gs: Compressor, presets: seq<string>, i: nat, target: real, j: nat)
    requires i <= j < |presets|
    requires StopsAt(src, gs, presets, j, target)
    requires forall k :: i <= k < j ==> !StopsAt(src, gs, presets, k, target)
    ensures LastTried(src, gs, presets, i, target) == j
    decreases j - i
  {
    if i < j {
      LastTriedUnique(src, gs, presets, i + 1, target, j);
    }
  }

  /** The rungs `lo .. hi-1` in order. */
  function Range(lo: nat, hi: nat): (r: seq<nat>)
    requires lo <= hi
    ensures |r| == hi - lo
    ensures forall k :: 0 <= k < |r| ==> r[k] == lo + k
    decreases hi - lo
  {
    if lo == hi then [] else Range(lo, hi - 1) + [hi - 1]
  }

  /** The outcome of compressing at rung `j`: the output size, or Ghostscript's failure. */
  function CompressAt(src: FilePath, out: FilePath, orig: nat, gs: Compressor, presets: seq<string>, j: nat): (r: Result<Compressed, CompressError>)
    requires j < |presets|
    ensures r.Success? ==> r.value.src == src && r.value.out == out && r.value.origBytes == orig
    ensures r.Success? <==> gs(src, presets[j]).Some?
    ensures r.Success? ==> r.value.setting == presets[j] && r.value.newBytes == gs(src, presets[j]).value
    ensures r.Failure? ==> r.error == GhostscriptFailed(src, presets[j])
  {
    match gs(src, presets[j])
    case None => Failure(GhostscriptFailed(src, presets[j]))
    case Some(size) => Success(Compressed(src, out, orig, size, presets[j]))
  }

  /** The rung `compress_pdf_auto` tries last. */
  function FinalRung(gs: Compressor, presets: seq<string>, src: FilePath, start: int, target: Option<real>): (j: nat)
    requires presets != []
    ensures j < |presets|
  {
    var cur := StartAt(start, |presets|);
    if target.None? then cur else LastTried(src, gs, presets, cur, target.value)
  }

  /** What `compress_pdf_auto` returns for one source. */
  function AutoOutcome(src: FilePath, out: FilePath, stat: Stat, gs: Compressor, presets: seq<string>, start: int, target: Option<real>): (r: Result<Compressed, CompressError>)
    requires presets != []
    ensures stat(src).None? ==> r == Failure(SourceMissing(src))
    ensures r.Success? ==> r.value.src == src && r.value.out == out && r.value.origBytes == stat(src).value
  {
    if stat(src).None? then Failure(SourceMissing(src))
    else CompressAt(src, out, stat(src).value, gs, presets, FinalRung(gs, presets, src, start, target))
  }

  /**
   * With a target the result fits it unless the most compressing rung was
   * reached, and every rung tried before the last one gave a larger output.
   */
  lemma AutoMeetsTarget(src: FilePath, out: FilePath, stat: Stat, gs: Compressor, presets: seq<string>, start: int, target: real)
    requires presets != [] && stat(src).Some?
    ensures var r := AutoOutcome(src, out, stat, gs, presets, start, Some(target));
      r.Success? ==> Mb(r.value.newBytes) <= target || r.value.setting == presets[|presets| - 1]
    ensures var j := FinalRung(gs, presets, src, start, Some(target));
      forall k :: StartAt(start, |presets|) <= k < j ==>
        gs(src, presets[k]).Some? && Mb(gs(src, presets[k]).value) > target
  {
    LastTriedMeaning(src, gs, presets, StartAt(start, |presets|), target);
  }

  /**
   * `compress_pdf_auto`: a missing source fails before Ghostscript runs;
   * without a target Ghostscript runs once at the start rung; with one, it
   * runs at successive rungs until the output fits or the ladder ends.
   * `tried` lists the rungs Ghostscript was run at, in order.
   */
  method CompressPdfAuto(src: FilePath, out: FilePath, stat: Stat, gs: Compressor, presets: seq<string>, start: int, target: Option<real>)
    returns (res: Result<Compressed, CompressError>, tried: seq<nat>)
    requires presets != []
    ensures res == AutoOutcome(src, out, stat, gs, presets, start, target)
    ensures stat(src).None? ==> tried == []
    ensures stat(src).Some? ==>
      tried == Range(StartAt(start, |presets|), FinalRung(gs, presets, src, start, target) + 1)
  {
    var orig := stat(src);
    if orig.None? {
      return Failure(SourceMissing(src)), [];
    }
    var last := |presets| - 1;
    var cur := StartAt(start, |presets|);
    ghost var first := cur;
    if target.None? {
      tried := [cur];
      res := CompressAt(src, out, orig.value, gs, presets, cur);
      return;
    }
    tried := [];
    while true
      invariant first <= cur <= last
      invariant tried == Range(first, cur)
      invariant LastTried(src, gs, presets, first, target.value) == LastTried(src, gs, presets, cur, target.value)
      decreases last - cur
    {
      tried := tried + [cur];
      var size := gs(src, presets[cur]);
      if size.None? || Mb(size.value) <= target.value || cur >= last {
        break;
      }
      cur := cur + 1;
    }
    res := CompressAt(src, out, orig.value, gs, presets, cur);
  }

  /** The target-size loop of the older application's `run_compress` (two separate exits). */
  method SearchLadder0107(src: FilePath, out: FilePath, orig: nat, gs: Compressor, presets: seq<string>, start: nat, target: real)
    returns (res: Result<Compressed, CompressError>, tried: seq<nat>)
    requires start < |presets|
    ensures res == CompressAt(src, out, orig, gs, presets, LastTried(src, gs, presets, start, target))
    ensures tried == Range(start, LastTried(src, gs, presets, start, target) + 1)
  {
    var cur := start;
    var last := |presets| - 1;
    tried := [];
    while true
      invariant start <= cur <= last
      invariant tried == Range(start, cur)
      invariant LastTried(src, gs, presets, start, target) == LastTried(src, gs, presets, cur, target)
      decreases last - cur
    {
      tried := tried + [cur];
      var size := gs(src, presets[cur]);
      if size.None? {
        return Failure(GhostscriptFailed(src, presets[cur])), tried;
      }
      if Mb(size.value) <= target {
        break;
      }
      if cur < last {
        cur := cur + 1;
      } else {
        break;
      }
    }
    res := CompressAt(src, out, orig, gs, presets, cur);
  }

  /** The starting rung of `compress_pdfs`: the first with a target, else the level's. */
  function BatchStart(level: int, target: Option<real>): (r: nat)
    ensures r < |Presets|
    ensures target.Some? ==> r == 0
  {
    if target.None? then LevelToStartIndex(level) else 0
  }

  /** The results of compressing every source in order, or the failure of the first source that fails. */
  function AutoAll(sources: seq<FilePath>, outPaths: seq<FilePath>, stat: Stat, gs: Compressor, start: int, target: Option<real>)
    : (r: Result<seq<Compressed>, CompressError>)
    requires |sources| == |outPaths|
    ensures r.Success? ==> |r.value| == |sources|
  {
    if sources == [] then Success([])
    else match AutoOutcome(sources[0], outPaths[0], stat, gs, Presets, start, target)
      case Failure(e) => Failure(e)
      case Success(c) => Prefixed([c], AutoAll(sources[1..], outPaths[1..], stat, gs, start, target))
  }

  /** The results already collected in front of the outcome of the rest. */
  function Prefixed(done: seq<Compressed>, rest: Result<seq<Compressed>, CompressError>): Result<seq<Compressed>, CompressError>
  {
    if rest.Failure? then rest else Success(done + rest.value)
  }

  /** What `compress_pdfs` returns: a length mismatch, or the results of every source. */
  function BatchOutcome(sources: seq<FilePath>, outPaths: seq<FilePath>, stat: Stat, gs: Compressor, level: int, target: Option<real>)
    : Result<seq<Compressed>, CompressError>
  {
    if |sources| != |outPaths| then Failure(LengthMismatch)
    else AutoAll(sources, outPaths, stat, gs, BatchStart(level, target), target)
  }

  /**
   * The batch succeeds iff every source compresses, result k is source k's,
   * and a failure is that of the first source that fails.
   */
  lemma AutoAllMeaning(sources: seq<FilePath>, outPaths: seq<FilePath>, stat: Stat, gs: Compressor, start: int, target: Option<real>)
    requires |sources| == |outPaths|
    ensures var r := AutoAll(sources, outPaths, stat, gs, start, target);
      r.Success? <==> forall k :: 0 <= k < |sources| ==> AutoOutcome(sources[k], outPaths[k], stat, gs, Presets, start, target).Success?
    ensures var r := AutoAll(sources, outPaths, stat, gs, start, target);
      r.Success? ==> forall k :: 0 <= k < |sources| ==> AutoOutcome(sources[k], outPaths[k], stat, gs, Presets, start, target) == Success(r.value[k])
    ensures var r := AutoAll(sources, outPaths, stat, gs, start, target);
      r.Failure? ==>
        exists k :: 0 <= k < |sources| && AutoOutcome(sources[k], outPaths[k], stat, gs, Presets, start, target) == Failure(r.error) &&
          forall j :: 0 <= j < k ==> AutoOutcome(sources[j], outPaths[j], stat, gs, Presets, start, target).Success?
  {
    AutoAllSuccess(sources, outPaths, stat, gs, start, target);
    AutoAllFailure(sources, outPaths, stat, gs, start, target);
  }

  /** The success half of `AutoAllMeaning`. */
  lemma {:induction false} AutoAllSuccess(sources: seq<FilePath>, outPaths: seq<FilePath>, stat: Stat, gs: Compressor, start: int, target: Option<real>)
    requires |sources| == |outPaths|
    ensures var r := AutoAll(sources, outPaths, stat, gs, start, target);
      r.Success? <==> forall k :: 0 <= k < |sources| ==> AutoOutcome(sources[k], outPaths[k], stat, gs, Presets, start, target).Success?
    ensures var r := AutoAll(sources, outPaths, stat, gs, start, target);
      r.Success? ==> forall k :: 0 <= k < |sources| ==> AutoOutcome(sources[k], outPaths[k], stat, gs, Presets, start, target) == Success(r.value[k])
  {
    if sources != [] {
      var s', o' := sources[1..], outPaths[1..];
      AutoAllSuccess(s', o', stat, gs, start, target);
      assert forall k :: 1 <= k < |sources| ==> sources[k] == s'[k - 1] && outPaths[k] == o'[k - 1];
    }
  }

  /** The failure half of `AutoAllMeaning`: the batch fails with the first failing file's error. */
  lemma {:induction false} AutoAllFailure(sources: seq<FilePath>, outPaths: seq<FilePath>, stat: Stat, gs: Compressor, start: int, target: Option<real>)
    requires |sources| == |outPaths|
    ensures var r := AutoAll(sources, outPaths, stat, gs, start, target);
      r.Failure? ==>
        exists k :: 0 <= k < |sources| && AutoOutcome(sources[k], outPaths[k], stat, gs, Presets, start, target) == Failure(r.error) &&
          forall j :: 0 <= j < k ==> AutoOutcome(sources[j], outPaths[j], stat, gs, Presets, start, target).Success?
  {
    if sources != [] {
      var s', o' := sources[1..], outPaths[1..];
      AutoAllFailure(s', o', stat, gs, start, target);
      var r := AutoAll(sources, outPaths, stat, gs, start, target);
      var rest := AutoAll(s', o', stat, gs, start, target);
      if AutoOutcome(sources[0], outPaths[0], stat, gs, Presets, start, target).Success? && rest.Failure? {
        var k :| 0 <= k < |s'| && AutoOutcome(s'[k], o'[k], stat, gs, Presets, start, target) == Failure(rest.error) &&
          forall j :: 0 <= j < k ==> AutoOutcome(s'[j], o'[j], stat, gs, Presets, start, target).Success?;
        assert forall j :: 1 <= j <= k ==> sources[j] == s'[j - 1] && outPaths[j] == o'[j - 1];
        assert AutoOutcome(sources[k + 1], outPaths[k + 1], stat, gs, Presets, start, target) == Failure(r.error);
      }
    }
  }

  /** After `a` sources: their results are collected, and the whole batch is those results in front of the rest's. */
  ghost predicate CollectedUpTo(sources: seq<FilePath>, outPaths: seq<FilePath>, stat: Stat, gs: Compressor, start: int, target: Option<real>,
                                a: nat, results: seq<Compressed>)
    requires |sources| == |outPaths|
  {
    a <= |sources| && |results| == a &&
    (forall k :: 0 <= k < a ==> AutoOutcome(sources[k], outPaths[k], stat, gs, Presets, start, target) == Success(results[k])) &&
    AutoAll(sources, outPaths, stat, gs, start, target) == Prefixed(results, AutoAll(sources[a..], outPaths[a..], stat, gs, start, target))
  }

  lemma CollectStart(sources: seq<FilePath>, outPaths: seq<FilePath>, stat: Stat, gs: Compressor, start: int, target: Option<real>)
    requires |sources| == |outPaths|
    ensures CollectedUpTo(sources, outPaths, stat, gs, start, target, 0, [])
  {
    assert sources[0..] == sources && outPaths[0..] == outPaths;
    var all := AutoAll(sources, outPaths, stat, gs, start, target);
    assert all.Success? ==> [] + all.value == all.value;
  }

  /** `AutoAll` from position `a` on: source a's outcome, then the rest's. */
  lemma AutoAllFrom(sources: seq<FilePath>, outPaths: seq<FilePath>, stat: Stat, gs: Compressor, start: int, target: Option<real>, a: nat)
    requires a < |sources| == |outPaths|
    ensures var r := AutoOutcome(sources[a], outPaths[a], stat, gs, Presets, start, target);
      AutoAll(sources[a..], outPaths[a..], stat, gs, start, target) ==
        if r.Failure? then Failure(r.error) else Prefixed([r.value], AutoAll(sources[a + 1..], outPaths[a + 1..], stat, gs, start, target))
  {
    assert sources[a..][0] == sources[a] && outPaths[a..][0] == outPaths[a];
    assert sources[a..][1..] == sources[a + 1..] && outPaths[a..][1..] == outPaths[a + 1..];
  }

  lemma CollectStep(sources: seq<FilePath>, outPaths: seq<FilePath>, stat: Stat, gs: Compressor, start: int, target: Option<real>,
                    a: nat, results: seq<Compressed>)
    requires |sources| == |outPaths| && a < |sources|
    requires CollectedUpTo(sources, outPaths, stat, gs, start, target, a, results)
    ensures var r := AutoOutcome(sources[a], outPaths[a], stat, gs, Presets, start, target);
      r.Failure? ==> AutoAll(sources, outPaths, stat, gs, start, target) == Failure(r.error)
    ensures var r := AutoOutcome(sources[a], outPaths[a], stat, gs, Presets, start, target);
      r.Success? ==> CollectedUpTo(sources, outPaths, stat, gs, start, target, a + 1, results + [r.value])
  {
    AutoAllFrom(sources, outPaths, stat, gs, start, target, a);
    var r := AutoOutcome(sources[a], outPaths[a], stat, gs, Presets, start, target);
    if r.Success? {
      PrefixedTwice(results, [r.value], AutoAll(sources[a + 1..], outPaths[a + 1..], stat, gs, start, target));
    }
  }

  /** Putting two lists of results in front, one after the other, is putting them in front together. */
  lemma PrefixedTwice(done: seq<Compressed>, more: seq<Compressed>, rest: Result<seq<Compressed>, CompressError>)
    ensures Prefixed(done, Prefixed(more, rest)) == Prefixed(done + more, rest)
  {
    if rest.Success? {
      assert done + (more + rest.value) == (done + more) + rest.value;
    }
  }

  lemma CollectDone(sources: seq<FilePath>, outPaths: seq<FilePath>, stat: Stat, gs: Compressor, start: int, target: Option<real>,
                    results: seq<Compressed>)
    requires |sources| == |outPaths|
    requires CollectedUpTo(sources, outPaths, stat, gs, start, target, |sources|, results)
    ensures AutoAll(sources, outPaths, stat, gs, start, target) == Success(results)
  {
    assert results + [] == results;
  }

  /**
   * `compress_pdfs`: the lists must have the same length; each source is
   * compressed in order and the first failure ends the batch. `attempted`
   * counts the sources handed to `compress_pdf_auto`.
   */
  method CompressPdfs(sources: seq<FilePath>, outPaths: seq<FilePath>, stat: Stat, gs: Compressor, level: int, target: Option<real>)
    returns (res: Result<seq<Compressed>, CompressError>, attempted: nat)
    ensures res == BatchOutcome(sources, outPaths, stat, gs, level, target)
    ensures |sources| != |outPaths| ==> res == Failure(LengthMismatch) && attempted == 0
    ensures attempted <= |sources|
    ensures forall k :: 0 <= k < attempted - 1 ==>
      AutoOutcome(sources[k], outPaths[k], stat, gs, Presets, BatchStart(level, target), target).Success?
    ensures res.Success? ==> attempted == |sources| && |res.value| == |sources|
    ensures res.Success? ==> forall k :: 0 <= k < |sources| ==>
      AutoOutcome(sources[k], outPaths[k], stat, gs, Presets, BatchStart(level, target), target) == Success(res.value[k])
    ensures res.Failure? && |sources| == |outPaths| ==> 0 < attempted
    ensures res.Failure? && 0 < attempted ==>
      AutoOutcome(sources[attempted - 1], outPaths[attempted - 1], stat, gs, Presets, BatchStart(level, target), target) == Failure(res.error)
  {
    if |sources| != |outPaths| {
      return Failure(LengthMismatch), 0;
    }
    if sources == [] {
      return Success([]), 0;
    }
    var start := BatchStart(level, target);
    var results: seq<Compressed> := [];
    attempted := 0;
    CollectStart(sources, outPaths, stat, gs, start, target);
    while attempted < |sources|
      invariant CollectedUpTo(sources, outPaths, stat, gs, start, target, attempted, results)
    {
      var r, _ := CompressPdfAuto(sources[attempted], outPaths[attempted], stat, gs, Presets, start, target);
      CollectStep(sources, outPaths, stat, gs, start, target, attempted, results);
      attempted := attempted + 1;
      if r.Failure? {
        return Failure(r.error), attempted;
      }
      results := results + [r.value];
    }
    CollectDone(sources, outPaths, stat, gs, start, target, results);
    res := Success(results);
  }

  // ----- the compress tab -----

  /** Whether the overwrite dialog lets the output at a path be written. */
  type Confirm = FilePath -> bool

  /** The files whose output the dialog lets be written. */
  function WritesFor(pattern: string, outDir: Option<string>, confirm: Confirm): FilePath -> bool
  {
    f => confirm(CompressOutPath(f, pattern, outDir))
  }

  /** The files whose overwrite was declined. */
  function SkipsFor(pattern: string, outDir: Option<string>, confirm: Confirm): (r: FilePath -> bool)
    ensures forall f :: r(f) == !WritesFor(pattern, outDir, confirm)(f)
  {
    f => !confirm(CompressOutPath(f, pattern, outDir))
  }

  /** After the first `i` files: the kept sources with their output paths, and the skipped files. */
  ghost predicate TasksUpTo(files: seq<FilePath>, pattern: string, outDir: Option<string>, confirm: Confirm, i: nat,
                            sources: seq<FilePath>, outPaths: seq<FilePath>, skipped: seq<FilePath>)
  {
    i <= |files| &&
    sources == Keep(files[..i], WritesFor(pattern, outDir, confirm)) &&
    skipped == Keep(files[..i], SkipsFor(pattern, outDir, confirm)) &&
    |outPaths| == |sources| &&
    forall k :: 0 <= k < |sources| ==> outPaths[k] == CompressOutPath(sources[k], pattern, outDir)
  }

  /** One more file: it is kept with its output path when its output may be written, else skipped. */
  lemma TasksNext(files: seq<FilePath>, pattern: string, outDir: Option<string>, confirm: Confirm, i: nat,
                  sources: seq<FilePath>, outPaths: seq<FilePath>, skipped: seq<FilePath>)
    requires i < |files| && TasksUpTo(files, pattern, outDir, confirm, i, sources, outPaths, skipped)
    ensures var out := CompressOutPath(files[i], pattern, outDir);
      !confirm(out) ==> TasksUpTo(files, pattern, outDir, confirm, i + 1, sources, outPaths, skipped + [files[i]])
    ensures var out := CompressOutPath(files[i], pattern, outDir);
      confirm(out) ==> TasksUpTo(files, pattern, outDir, confirm, i + 1, sources + [files[i]], outPaths + [out], skipped)
  {
    assert files[..i + 1][..i] == files[..i];
    assert files[..i + 1][i] == files[i];
  }

  /**
   * The task-building loop of the compress tab's `run_compress`: each file's
   * output path is derived from the pattern; a declined overwrite puts the
   * file on the skip list, otherwise it and its output path are appended.
   */
  method BuildCompressTasks(files: seq<FilePath>, pattern: string, outDir: Option<string>, confirm: Confirm)
    returns (sources: seq<FilePath>, outPaths: seq<FilePath>, skipped: seq<FilePath>)
    ensures sources == Keep(files, WritesFor(pattern, outDir, confirm))
    ensures skipped == Keep(files, SkipsFor(pattern, outDir, confirm))
    ensures |outPaths| == |sources|
    ensures forall k :: 0 <= k < |sources| ==> outPaths[k] == CompressOutPath(sources[k], pattern, outDir)
  {
    sources, outPaths, skipped := [], [], [];
    for i := 0 to |files|
      invariant TasksUpTo(files, pattern, outDir, confirm, i, sources, outPaths, skipped)
    {
      TasksNext(files, pattern, outDir, confirm, i, sources, outPaths, skipped);
      var src := files[i];
      var outPath := CompressOutPath(src, pattern, outDir);
      if !confirm(outPath) {
        skipped := skipped + [src];
        continue;
      }
      sources := sources + [src];
      outPaths := outPaths + [outPath];
    }
    assert files[..|files|] == files;
  }

  /** The target field: blank means none, a positive number is the target in megabytes, any other number means none. */
  datatype TargetField = NoTarget | TargetMb(mb: real) | NotANumber

  /** `float()` on the stripped field is an oracle: `None` when it raises. */
  function ReadTarget(raw: string, number: string -> Option<real>): (r: TargetField)
    ensures Strip(raw) == [] ==> r == NoTarget
    ensures r.TargetMb? ==> r.mb > 0.0 && number(Strip(raw)) == Some(r.mb)
    ensures r == NotANumber <==> Strip(raw) != [] && number(Strip(raw)).None?
  {
    var t := Strip(raw);
    if t == [] then NoTarget
    else match number(t)
      case None => NotANumber
      case Some(v) => if v > 0.0 then TargetMb(v) else NoTarget
  }

  /** The target passed to `compress_pdfs`: the megabytes when a positive number was entered, else none. */
  function TargetOf(field: TargetField): (r: Option<real>)
    ensures r.Some? <==> field.TargetMb?
    ensures r.Some? ==> r.value == field.mb
  {
    if field.TargetMb? then Some(field.mb) else None
  }

  /** The output path of each source, in order. */
  function OutPathsFor(sources: seq<FilePath>, pattern: string, outDir: Option<string>): (r: seq<FilePath>)
    ensures |r| == |sources|
    ensures forall k :: 0 <= k < |sources| ==> r[k] == CompressOutPath(sources[k], pattern, outDir)
  {
    seq(|sources|, k requires 0 <= k < |sources| => CompressOutPath(sources[k], pattern, outDir))
  }

  /** How a press of the compress button ends. */
  datatype CompressRun =
    | NoFiles
    | NoGhostscript
    | BadTarget
    | AllSkipped(skipped: seq<FilePath>)
    | Ran(skipped: seq<FilePath>, sources: seq<FilePath>, outcome: Result<seq<Compressed>, CompressError>)

  /**
   * `run_compress` of the compress tab: no files, no Ghostscript and an
   * unreadable target each stop it in that order; declined overwrites are
   * skipped; when every file is skipped nothing is compressed; otherwise the
   * remaining files go to `compress_pdfs` with the slider level.
   */
  method RunCompressTab(files: seq<FilePath>, gsFound: bool, rawTarget: string, number: string -> Option<real>,
                        rawPattern: string, rawDir: string, confirm: Confirm, level: int, stat: Stat, gs: Compressor)
    returns (run: CompressRun)
    ensures files == [] ==> run == NoFiles
    ensures files != [] && !gsFound ==> run == NoGhostscript
    ensures files != [] && gsFound && ReadTarget(rawTarget, number) == NotANumber ==> run == BadTarget
    ensures run.AllSkipped? ==> run.skipped == files
    ensures run.Ran? ==>
      run.sources == Keep(files, WritesFor(Strip(rawPattern), FolderOf(rawDir), confirm)) &&
      run.skipped == Keep(files, SkipsFor(Strip(rawPattern), FolderOf(rawDir), confirm)) && run.sources != []
    ensures files != [] && gsFound && ReadTarget(rawTarget, number) != NotANumber ==> run.AllSkipped? || run.Ran?
    ensures run.AllSkipped? ==> Keep(files, WritesFor(Strip(rawPattern), FolderOf(rawDir), confirm)) == []
    ensures run.Ran? ==>
      run.outcome == BatchOutcome(run.sources, OutPathsFor(run.sources, Strip(rawPattern), FolderOf(rawDir)), stat, gs, level,
                                  TargetOf(ReadTarget(rawTarget, number)))
    ensures run.Ran? && run.outcome.Success? ==> |run.outcome.value| == |run.sources|
  {
    if files == [] {
      return NoFiles;
    }
    if !gsFound {
      return NoGhostscript;
    }
    var field := ReadTarget(rawTarget, number);
    if field == NotANumber {
      return BadTarget;
    }
    run := CompressKept(files, TargetOf(field), Strip(rawPattern), FolderOf(rawDir), confirm, level, stat, gs);
  }

  /** The part of `run_compress` past its guards: the task list, the all-skipped stop, then `compress_pdfs`. */
  method CompressKept(files: seq<FilePath>, target: Option<real>, pattern: string, outDir: Option<string>, confirm: Confirm,
                      level: int, stat: Stat, gs: Compressor)
    returns (run: CompressRun)
    ensures run.AllSkipped? || run.Ran?
    ensures run.AllSkipped? ==> run.skipped == files && Keep(files, WritesFor(pattern, outDir, confirm)) == []
    ensures run.Ran? ==>
      run.sources == Keep(files, WritesFor(pattern, outDir, confirm)) &&
      run.skipped == Keep(files, SkipsFor(pattern, outDir, confirm)) && run.sources != []
    ensures run.Ran? ==> run.outcome == BatchOutcome(run.sources, OutPathsFor(run.sources, pattern, outDir), stat, gs, level, target)
    ensures run.Ran? && run.outcome.Success? ==> |run.outcome.value| == |run.sources|
  {
    var sources, outPaths, skipped := BuildCompressTasks(files, pattern, outDir, confirm);
    if sources == [] {
      KeepNone(files, WritesFor(pattern, outDir, confirm), SkipsFor(pattern, outDir, confirm));
      return AllSkipped(skipped);
    }
    var outcome, _ := CompressPdfs(sources, outPaths, stat, gs, level, target);
    assert outPaths == OutPathsFor(sources, pattern, outDir);
    run := Ran(skipped, sources, outcome);
  }
}
