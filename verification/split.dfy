/**
 * Page extraction and deletion: the service `split_pdf`, and how the split
 * screens of the single-window application and of the tabbed application
 * choose the target pages and the output name before writing.
 */
module Split {
  import opened Wrappers
  import opened Seqs
  import opened Text
  import opened Naming
  import opened Documents
  import PageRanges

  /** Why `split_pdf` refused (ValueError), or could not read the source (PDFSplitError). */
  datatype SplitError =
    | InvalidMode(mode: string)
    | Unreadable
    | Encrypted
    | NoPages
    | NoTargets
    | TargetOutOfRange(index: int, total: nat)   // reported to the user as index + 1
    | NothingLeft

  /** `SplitResult(total_pages, kept_pages, output_path)`, with the pages written in place of the path. */
  datatype SplitResult = SplitResult(totalPages: nat, keptPages: nat, written: seq<Page>)

  /** The position of the first target outside [0, total), or |targets| when all are inside. */
  function FirstOutOfRange(targets: seq<int>, total: nat): (r: nat)
    ensures r <= |targets|
    ensures forall k :: 0 <= k < r ==> 0 <= targets[k] < total
    ensures r < |targets| ==> !(0 <= targets[r] < total)
  {
    if targets == [] then 0
    else if !(0 <= targets[0] < total) then 0
    else FirstOutOfRange(targets[1..], total) + 1
  }

  /** `set(targets)`, as page indices. */
  function TargetSet(targets: seq<int>): (r: set<nat>)
    ensures forall x: nat :: x in r <==> x in targets
  {
    set x: nat | x in targets
  }

  /** The pages `split_pdf` keeps: `sorted(set(targets))` for "keep", the rest of `range(total)` otherwise. */
  function KeptIndices(mode: string, targets: seq<int>, total: nat): seq<nat>
  {
    if mode == "keep" then Ascending(TargetSet(targets), total)
    else Without(Iota(total), TargetSet(targets))
  }

  predicate AllIndices(targets: seq<int>, total: nat)
  {
    forall k :: 0 <= k < |targets| ==> 0 <= targets[k] < total
  }

  /** The kept pages are ascending indices: the targets themselves, or every page not targeted. */
  lemma KeptMeaning(mode: string, targets: seq<int>, total: nat)
    requires AllIndices(targets, total)
    ensures StrictlyIncreasing(KeptIndices(mode, targets, total))
    ensures forall k :: 0 <= k < |KeptIndices(mode, targets, total)| ==> KeptIndices(mode, targets, total)[k] < total
    ensures mode == "keep" ==> forall x: nat :: x in KeptIndices(mode, targets, total) <==> x in targets
    ensures mode != "keep" ==> forall x: nat :: x in KeptIndices(mode, targets, total) <==> x < total && x !in targets
  {
    var r := KeptIndices(mode, targets, total);
    if mode == "keep" {
      forall x: nat | x in targets
        ensures x < total
      {
        var k :| 0 <= k < |targets| && targets[k] == x;
      }
    } else {
      WithoutIota(total, TargetSet(targets));
      forall k | 0 <= k < |r|
        ensures r[k] < total
      {
        assert r[k] in r;
      }
    }
  }

  /**
   * Keep and delete with the same targets split the document between them:
   * together they list every page exactly once.
   */
  lemma KeepDeletePartition(targets: seq<int>, total: nat)
    requires AllIndices(targets, total)
    ensures multiset(KeptIndices("keep", targets, total)) + multiset(KeptIndices("delete", targets, total))
      == multiset(Iota(total))
    ensures |KeptIndices("keep", targets, total)| + |KeptIndices("delete", targets, total)| == total
  {
    var sel := TargetSet(targets);
    KeptMeaning("keep", targets, total);
    WithinIota(total, sel);
    AscendingUnique(Ascending(sel, total), Within(Iota(total), sel));
    SplitMultiset(Iota(total), sel);
    assert |multiset(Iota(total))| == total;
  }

  /** What `split_pdf` does, checks in the source's order. */
  function SplitSpec(src: Option<Document>, mode: string, targets: seq<int>): Result<SplitResult, SplitError>
  {
    if mode != "keep" && mode != "delete" then Failure(InvalidMode(mode))
    else if src.None? then Failure(Unreadable)
    else if src.value.encrypted then Failure(Encrypted)
    else if |src.value.pages| == 0 then Failure(NoPages)
    else if targets == [] then Failure(NoTargets)
    else
      var total := |src.value.pages|;
      var bad := FirstOutOfRange(targets, total);
      if bad < |targets| then Failure(TargetOutOfRange(targets[bad], total))
      else
        var kept := KeptIndices(mode, targets, total);
        if kept == [] then Failure(NothingLeft)
        else
          KeptMeaning(mode, targets, total);
          Success(SplitResult(total, |kept|, Pick(src.value.pages, kept)))
  }

  /** The range-check loop of `split_pdf`: the position of the first target that is not a page index. */
  method CheckTargets(targets: seq<int>, total: nat) returns (bad: nat)
    ensures bad == FirstOutOfRange(targets, total)
  {
    for i := 0 to |targets|
      invariant forall k :: 0 <= k < i ==> 0 <= targets[k] < total
    {
      if targets[i] < 0 || targets[i] >= total {
        return i;
      }
    }
    return |targets|;
  }

  /** The writer loop: every kept page, in the order given. */
  method CopyPages(pages: seq<Page>, kept: seq<nat>) returns (written: seq<Page>)
    requires forall k :: 0 <= k < |kept| ==> kept[k] < |pages|
    ensures written == Pick(pages, kept)
  {
    written := [];
    for j := 0 to |kept|
      invariant written == Pick(pages, kept[..j])
    {
      assert kept[..j + 1][..j] == kept[..j];
      written := written + [pages[kept[j]]];
    }
    assert kept[..|kept|] == kept;
  }

  /** `split_pdf`: the checks in order, the range check, the choice of pages, then the writer loop. */
  method SplitPdf(src: Option<Document>, mode: string, targets: seq<int>) returns (r: Result<SplitResult, SplitError>)
    ensures r == SplitSpec(src, mode, targets)
  {
    if mode != "keep" && mode != "delete" {
      return Failure(InvalidMode(mode));
    }
    if src.None? {
      return Failure(Unreadable);
    }
    var doc := src.value;
    if doc.encrypted {
      return Failure(Encrypted);
    }
    var total := |doc.pages|;
    if total == 0 {
      return Failure(NoPages);
    }
    if targets == [] {
      return Failure(NoTargets);
    }
    var bad := CheckTargets(targets, total);
    if bad < |targets| {
      return Failure(TargetOutOfRange(targets[bad], total));
    }
    var kept := KeptIndices(mode, targets, total);
    if kept == [] {
      return Failure(NothingLeft);
    }
    KeptMeaning(mode, targets, total);
    var written := CopyPages(doc.pages, kept);
    return Success(SplitResult(total, |kept|, written));
  }

  /**
   * `split_pdf` succeeds exactly when the mode is known, the source is readable,
   * unencrypted and non-empty, the targets are non-empty page indices, and
   * something is left: always in keep mode, in delete mode when some page is not targeted.
   */
  lemma SplitSucceeds(src: Option<Document>, mode: string, targets: seq<int>)
    ensures SplitSpec(src, mode, targets).Success? <==>
      (mode == "keep" || mode == "delete") && src.Some? && !src.value.encrypted &&
      |src.value.pages| > 0 && targets != [] && AllIndices(targets, |src.value.pages|) &&
      (mode == "keep" || exists p: nat :: p < |src.value.pages| && p !in targets)
  {
    if (mode == "keep" || mode == "delete") && src.Some? && !src.value.encrypted &&
      |src.value.pages| > 0 && targets != []
    {
      var total := |src.value.pages|;
      if AllIndices(targets, total) {
        KeptMeaning(mode, targets, total);
        var kept := KeptIndices(mode, targets, total);
        if mode == "keep" {
          assert targets[0] in targets;
          assert targets[0] as nat in kept;
        } else if kept != [] {
          assert kept[0] in kept;
        }
      }
    }
  }

  /** A successful split reports the source page count and writes exactly the kept pages, ascending, each once. */
  lemma SplitWrites(src: Option<Document>, mode: string, targets: seq<int>)
    requires SplitSpec(src, mode, targets).Success?
    ensures SplitSpec(src, mode, targets).value.totalPages == |src.value.pages|
    ensures 1 <= SplitSpec(src, mode, targets).value.keptPages <= |src.value.pages|
    ensures SplitSpec(src, mode, targets).value.keptPages == |SplitSpec(src, mode, targets).value.written|
    ensures StrictlyIncreasing(KeptIndices(mode, targets, |src.value.pages|))
    ensures |SplitSpec(src, mode, targets).value.written| == |KeptIndices(mode, targets, |src.value.pages|)|
    ensures forall k :: 0 <= k < |SplitSpec(src, mode, targets).value.written| ==>
      KeptIndices(mode, targets, |src.value.pages|)[k] < |src.value.pages| &&
      SplitSpec(src, mode, targets).value.written[k] == src.value.pages[KeptIndices(mode, targets, |src.value.pages|)[k]]
  {
    var total := |src.value.pages|;
    KeptMeaning(mode, targets, total);
    KeepDeletePartition(targets, total);
  }

  // ----- the split screen of the single-window application -----

  /** Why the split screen stopped before writing. */
  datatype SplitStop =
    | NoSource
    | ReadFailed
    | SourceEncrypted
    | EmptySource
    | BadSpec(specError: PageRanges.RangeError)
    | NoValidPages
    | NoPagesChosen
    | NothingToKeep
    | OverwriteDeclined
    | SplitRefused(cause: SplitError)

  /** What the split screen writes: the kept page indices and the output file. */
  datatype SplitJob = SplitJob(kept: seq<nat>, out: FilePath)

  /** The kept pages of the older screen: the targets as given for "keep", the complement otherwise. */
  function Kept0107(mode: string, targets: seq<nat>, total: nat): (r: seq<nat>)
    ensures mode == "keep" ==> r == targets
    ensures mode != "keep" ==> forall x: nat :: x in r <==> x < total && x !in targets
  {
    if mode == "keep" then targets
    else
      WithoutIota(total, TargetSet(targets));
      Without(Iota(total), TargetSet(targets))
  }

  /** The target pages of the older screen: the parsed range text, else the thumbnail selection. */
  function Targets0107(text: string, selection: seq<nat>, total: nat): (r: Result<seq<nat>, SplitStop>)
    ensures r.Success? ==> r.value != []
    ensures text != [] && r.Success? ==> PageRanges.LegacySpec(text, total) == Success(r.value)
    ensures text == [] && r.Success? ==> r.value == selection
  {
    if text != [] then
      match PageRanges.LegacySpec(text, total)
      case Failure(e) => Failure(BadSpec(e))
      case Success(t) => if t == [] then Failure(NoValidPages) else Success(t)
    else if selection == [] then Failure(NoPagesChosen)
    else Success(selection)
  }

  /** The output file of the older screen: the entry or the default name, ".pdf" ensured, in the output folder or beside the source. */
  function OutPath0107(entry: string, mode: string, src: FilePath, outDir: Option<string>): (r: FilePath)
    ensures HasPdfSuffix(r.name)
    ensures r.dir == (if outDir.Some? then outDir.value else src.dir)
    ensures entry == [] ==> r.name == SplitDefaultName0107(mode, src)
    ensures entry != [] && HasPdfSuffix(entry) ==> r.name == entry
  {
    var dir := if outDir.Some? then outDir.value else src.dir;
    if entry == [] then
      PdfAppended(Stem(src) + (if mode == "keep" then "_抽出済" else "_削除済"));
      FilePath(dir, EnsurePdf(SplitDefaultName0107(mode, src)))
    else FilePath(dir, EnsurePdf(entry))
  }

  /**
   * `run_split` of the single-window application up to the write. `text` is the
   * stripped range entry, `selection` what the thumbnail view returns, `entry`
   * the output-name entry without placeholder, and `overwriteOk` the answer to
   * the overwrite question.
   */
  function RunSplit0107(src: Option<FilePath>, doc: Option<Document>, text: string, selection: seq<nat>,
                        mode: string, entry: string, outDir: Option<string>, overwriteOk: bool): (r: Result<SplitJob, SplitStop>)
    ensures r.Success? ==> HasPdfSuffix(r.value.out.name) && r.value.kept != []
    ensures r.Success? ==> src.Some? && doc.Some? && Targets0107(text, selection, |doc.value.pages|).Success?
    ensures r.Success? ==>
      r.value.kept == Kept0107(mode, Targets0107(text, selection, |doc.value.pages|).value, |doc.value.pages|)
  {
    if src.None? then Failure(NoSource)
    else if doc.None? then Failure(ReadFailed)
    else if doc.value.encrypted then Failure(SourceEncrypted)
    else
      var total := |doc.value.pages|;
      if total == 0 then Failure(EmptySource)
      else
        var targets := Targets0107(text, selection, total);
        if targets.Failure? then Failure(targets.error)
        else
          var kept := Kept0107(mode, targets.value, total);
          if kept == [] then Failure(NothingToKeep)
          else if !overwriteOk then Failure(OverwriteDeclined)
          else Success(SplitJob(kept, OutPath0107(entry, mode, src.value, outDir)))
  }

  /**
   * In keep mode the older screen keeps exactly what the parser or the
   * thumbnails chose; in delete mode exactly the pages they did not choose.
   */
  lemma RunSplit0107Keeps(src: Option<FilePath>, doc: Option<Document>, text: string, selection: seq<nat>,
                          mode: string, entry: string, outDir: Option<string>, overwriteOk: bool)
    requires RunSplit0107(src, doc, text, selection, mode, entry, outDir, overwriteOk).Success?
    ensures var total := |doc.value.pages|;
      var kept := RunSplit0107(src, doc, text, selection, mode, entry, outDir, overwriteOk).value.kept;
      var chosen := if text != [] then PageRanges.LegacySpec(text, total).value else selection;
      (mode == "keep" ==> kept == chosen) &&
      (mode != "keep" ==> forall x: nat :: x in kept <==> x < total && x !in chosen)
  {
  }

  // ----- the split tab of the tabbed application -----

  /**
   * The target pages of the split tab: a non-empty range text wins and the
   * thumbnail selection is consulted only when the text is empty.
   */
  function TabTargets(text: string, selection: seq<nat>, total: nat): (r: Result<seq<nat>, SplitStop>)
  {
    if text != [] then
      match PageRanges.ParseSpec(text, total)
      case Failure(e) => Failure(BadSpec(e))
      case Success(t) => Success(t)
    else if selection != [] then Success(selection)
    else Failure(NoPagesChosen)
  }

  /** With range text present the thumbnails never matter; without it they are the targets. */
  lemma TextTakesPrecedence(text: string, sel1: seq<nat>, sel2: seq<nat>, total: nat)
    ensures text != [] ==> TabTargets(text, sel1, total) == TabTargets(text, sel2, total)
    ensures text == [] && sel1 != [] ==> TabTargets(text, sel1, total) == Success(sel1)
    ensures text == [] && sel1 == [] ==> TabTargets(text, sel1, total) == Failure(NoPagesChosen)
  {
  }

  /** The output name of the split tab: the stripped entry or the default, with ".pdf" ensured. */
  function TabOutputName(entry: string, mode: string, src: FilePath): (r: string)
    ensures HasPdfSuffix(r)
    ensures Strip(entry) == [] ==> r == SplitDefaultName(mode, src)
  {
    var raw := Strip(entry);
    if raw == [] then
      PdfAppended(Stem(src) + (if mode == "keep" then "_抽出済み" else "_削除済み"));
      SplitDefaultName(mode, src)
    else EnsurePdf(raw)
  }

  /**
   * `run_split` of the split tab: read, choose targets, name, confirm, then
   * `split_pdf`, whose ValueError becomes a warning. `text` is the stripped
   * range entry. Counting the pages calls no `decrypt`, so a source that needs
   * an open password is a read failure.
   */
  function RunSplitTab(src: Option<FilePath>, doc: Option<Document>, text: string, selection: seq<nat>,
                       mode: string, entry: string, outDir: Option<string>, overwriteOk: bool)
    : Result<(FilePath, SplitResult), SplitStop>
  {
    if src.None? then Failure(NoSource)
    else if doc.None? || !PagesReadable(doc.value) then Failure(ReadFailed)
    else
      var targets := TabTargets(text, selection, |doc.value.pages|);
      if targets.Failure? then Failure(targets.error)
      else
        var out := FilePath(if outDir.Some? then outDir.value else src.value.dir, TabOutputName(entry, mode, src.value));
        if !overwriteOk then Failure(OverwriteDeclined)
        else
          match SplitSpec(doc, mode, targets.value)
          case Failure(e) => Failure(SplitRefused(e))
          case Success(res) => Success((out, res))
  }

  /** Whatever the tab writes is what `split_pdf` writes for the chosen targets, under a ".pdf" name. */
  lemma RunSplitTabMeaning(src: Option<FilePath>, doc: Option<Document>, text: string, selection: seq<nat>,
                           mode: string, entry: string, outDir: Option<string>, overwriteOk: bool)
    requires RunSplitTab(src, doc, text, selection, mode, entry, outDir, overwriteOk).Success?
    ensures HasPdfSuffix(RunSplitTab(src, doc, text, selection, mode, entry, outDir, overwriteOk).value.0.name)
    ensures TabTargets(text, selection, |doc.value.pages|).Success?
    ensures RunSplitTab(src, doc, text, selection, mode, entry, outDir, overwriteOk).value.1 ==
      SplitSpec(doc, mode, TabTargets(text, selection, |doc.value.pages|).value).value
  {
  }

  /**
   * A source that needs an open password stops the tab at the read, before
   * the range text, the selection or the overwrite answer matter.
   */
  lemma LockedSourceStopsTab(src: FilePath, doc: Document, text: string, selection: seq<nat>,
                             mode: string, entry: string, outDir: Option<string>, overwriteOk: bool)
    requires !PagesReadable(doc)
    ensures RunSplitTab(Some(src), Some(doc), text, selection, mode, entry, outDir, overwriteOk) == Failure(ReadFailed)
  {
  }

  /**
   * An encrypted source that "" opens is read, and then refused by
   * `split_pdf` after the overwrite question.
   */
  lemma OpenEncryptedRefused(src: FilePath, doc: Document, text: string, selection: seq<nat>,
                             mode: string, entry: string, outDir: Option<string>)
    requires doc.encrypted && PagesReadable(doc) && TabTargets(text, selection, |doc.pages|).Success?
    ensures var r := RunSplitTab(Some(src), Some(doc), text, selection, mode, entry, outDir, true);
      r.Failure? && r.error.SplitRefused?
  {
    var refused := SplitSpec(Some(doc), mode, TabTargets(text, selection, |doc.pages|).value);
    assert refused.Failure?;
  }
}
