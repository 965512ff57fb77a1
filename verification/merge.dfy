/**
 * Merging PDFs: the `merge_pdfs` service (its checks, the reading loop that
 * appends every page of every input, the progress reports), the older
 * application's `merge_pdfs`, and the merge tab's guards, output naming and
 * order summary.
 */
module Merge {
  import opened Wrappers
  import opened Text
  import opened Naming
  import opened Documents
  import opened Progress

  /** What the file system says about a path: `exists()` and `is_file()`. */
  datatype Entry = NoEntry | Directory | RegularFile

  /** The file-system lookup, an oracle. */
  type Probe = FilePath -> Entry

  /** `PdfReader(path)`: the document, or None when it cannot be read. */
  type Reader = FilePath -> Option<Document>

  /** Why a merge stopped; nothing is written in every case. */
  datatype MergeError =
    | NoInputs                     // ValueError: empty input list
    | NotFound(path: FilePath)     // FileNotFoundError
    | NotAFile(path: FilePath)     // ValueError: not a file
    | Encrypted(path: FilePath)    // ValueError: password-protected input
    | Unreadable(path: FilePath)   // PDFMergeError wrapping the reader's failure

  /** The position of the first input that is not an existing regular file, or |inputs|. */
  function FirstBadPath(inputs: seq<FilePath>, probe: Probe): (r: nat)
    ensures r <= |inputs|
    ensures forall k :: 0 <= k < r ==> probe(inputs[k]) == RegularFile
    ensures r < |inputs| ==> probe(inputs[r]) != RegularFile
  {
    if inputs == [] then 0
    else if probe(inputs[0]) != RegularFile then 0
    else FirstBadPath(inputs[1..], probe) + 1
  }

  /** An input whose pages can be added: it reads, and it is not encrypted. */
  predicate Mergeable(read: Reader, p: FilePath)
  {
    read(p).Some? && !read(p).value.encrypted
  }

  /** The position of the first input that cannot be read or is encrypted, or |inputs|. */
  function FirstUnmergeable(inputs: seq<FilePath>, read: Reader): (r: nat)
    ensures r <= |inputs|
    ensures forall k :: 0 <= k < r ==> Mergeable(read, inputs[k])
    ensures r < |inputs| ==> !Mergeable(read, inputs[r])
  {
    if inputs == [] then 0
    else if !Mergeable(read, inputs[0]) then 0
    else FirstUnmergeable(inputs[1..], read) + 1
  }

  predicate AllReadable(inputs: seq<FilePath>, read: Reader)
  {
    forall k :: 0 <= k < |inputs| ==> read(inputs[k]).Some?
  }

  /** Every page of every input, input after input. */
  function AllPages(inputs: seq<FilePath>, read: Reader): seq<Page>
    requires AllReadable(inputs, read)
  {
    if inputs == [] then []
    else AllPages(inputs[..|inputs| - 1], read) + read(inputs[|inputs| - 1]).value.pages
  }

  /** The reading loop: the first input that fails to read or is encrypted stops it, else all pages. */
  function ReadAll(inputs: seq<FilePath>, read: Reader): Result<seq<Page>, MergeError>
  {
    var k := FirstUnmergeable(inputs, read);
    if k < |inputs| then
      Failure(if read(inputs[k]).None? then Unreadable(inputs[k]) else Encrypted(inputs[k]))
    else Success(AllPages(inputs, read))
  }

  /** What `merge_pdfs` of the merge service does: the empty check, every path checked, then the reading loop. */
  function MergeSpec(inputs: seq<FilePath>, probe: Probe, read: Reader): Result<seq<Page>, MergeError>
  {
    if inputs == [] then Failure(NoInputs)
    else
      var bad := FirstBadPath(inputs, probe);
      if bad < |inputs| then
        Failure(if probe(inputs[bad]) == NoEntry then NotFound(inputs[bad]) else NotAFile(inputs[bad]))
      else ReadAll(inputs, read)
  }

  /** The service's checks pass: the list is non-empty and every input is an existing regular file. */
  predicate PathsPass(inputs: seq<FilePath>, probe: Probe)
  {
    inputs != [] && FirstBadPath(inputs, probe) == |inputs|
  }

  /** `for page in reader.pages: writer.add_page(page)`. */
  method AddPages(written: seq<Page>, pages: seq<Page>) returns (w: seq<Page>)
    ensures w == written + pages
  {
    w := written;
    for j := 0 to |pages|
      invariant w == written + pages[..j]
    {
      assert pages[..j + 1] == pages[..j] + [pages[j]];
      w := w + [pages[j]];
    }
    assert pages[..|pages|] == pages;
  }

  /**
   * The reading loop, which is the whole of the older application's
   * `merge_pdfs` and the second half of the service's: each input is read,
   * an encrypted one stops everything, its pages are appended, and its
   * progress is reported. The write follows the loop, so a failure writes nothing.
   */
  method AppendInputs(inputs: seq<FilePath>, read: Reader) returns (r: Result<seq<Page>, MergeError>, progress: seq<real>)
    ensures r == ReadAll(inputs, read)
    ensures |inputs| > 0 ==> progress == Reports(FirstUnmergeable(inputs, read), |inputs|)
    ensures |inputs| == 0 ==> progress == []
  {
    progress := [];
    var written: seq<Page> := [];
    var total := |inputs|;
    for i := 0 to total
      invariant forall k :: 0 <= k < i ==> Mergeable(read, inputs[k])
      invariant AllReadable(inputs[..i], read)
      invariant written == AllPages(inputs[..i], read)
      invariant total > 0 ==> progress == Reports(i, total)
      invariant total == 0 ==> progress == []
    {
      var doc := read(inputs[i]);
      if doc.None? {
        r := Failure(Unreadable(inputs[i]));
        return;
      }
      if doc.value.encrypted {
        r := Failure(Encrypted(inputs[i]));
        return;
      }
      assert inputs[..i + 1][..i] == inputs[..i];
      written := AddPages(written, doc.value.pages);
      progress := progress + [Percent(i + 1, total)];
    }
    assert inputs[..total] == inputs;
    r := Success(written);
  }

  /** The merge service's `merge_pdfs`: refuse an empty list, check every path, then read and append. */
  method MergePdfs(inputs: seq<FilePath>, probe: Probe, read: Reader) returns (r: Result<seq<Page>, MergeError>, progress: seq<real>)
    ensures r == MergeSpec(inputs, probe, read)
    ensures !PathsPass(inputs, probe) ==> progress == []
    ensures PathsPass(inputs, probe) ==> progress == Reports(FirstUnmergeable(inputs, read), |inputs|)
  {
    progress := [];
    if inputs == [] {
      r := Failure(NoInputs);
      return;
    }
    for i := 0 to |inputs|
      invariant forall k :: 0 <= k < i ==> probe(inputs[k]) == RegularFile
    {
      var entry := probe(inputs[i]);
      if entry == NoEntry {
        r := Failure(NotFound(inputs[i]));
        return;
      }
      if entry == Directory {
        r := Failure(NotAFile(inputs[i]));
        return;
      }
    }
    r, progress := AppendInputs(inputs, read);
  }

  /**
   * The service succeeds exactly when the list is non-empty and every input
   * is an existing file that reads and is not encrypted; the older
   * application's loop alone also accepts an empty list and writes an empty document.
   */
  lemma MergeSucceeds(inputs: seq<FilePath>, probe: Probe, read: Reader)
    ensures MergeSpec(inputs, probe, read).Success? <==>
      inputs != [] &&
      (forall k :: 0 <= k < |inputs| ==> probe(inputs[k]) == RegularFile) &&
      (forall k :: 0 <= k < |inputs| ==> Mergeable(read, inputs[k]))
    ensures ReadAll([], read) == Success([])
  {
    if inputs != [] && (forall k :: 0 <= k < |inputs| ==> probe(inputs[k]) == RegularFile) {
      var bad := FirstBadPath(inputs, probe);
      assert bad == |inputs|;
    }
  }

  /** Every path is checked before any input is read: a bad path decides the outcome whatever the inputs hold. */
  lemma PathsCheckedFirst(inputs: seq<FilePath>, probe: Probe, read1: Reader, read2: Reader, k: nat)
    requires k < |inputs| && probe(inputs[k]) != RegularFile
    ensures MergeSpec(inputs, probe, read1) == MergeSpec(inputs, probe, read2)
    ensures MergeSpec(inputs, probe, read1).Failure?
  {
  }

  /**
   * An encrypted input stops the merge with its own name, after exactly the
   * inputs before it were reported, and nothing after it is read.
   */
  lemma EncryptedStopsMerge(inputs: seq<FilePath>, probe: Probe, read: Reader, k: nat)
    requires forall j :: 0 <= j < |inputs| ==> probe(inputs[j]) == RegularFile
    requires k < |inputs| && forall j :: 0 <= j < k ==> Mergeable(read, inputs[j])
    requires read(inputs[k]).Some? && read(inputs[k]).value.encrypted
    ensures MergeSpec(inputs, probe, read) == Failure(Encrypted(inputs[k]))
    ensures FirstUnmergeable(inputs, read) == k
  {
    var bad := FirstBadPath(inputs, probe);
    assert bad == |inputs|;
  }

  /** Merging the inputs of two lists is merging each list and concatenating the outputs. */
  lemma {:induction false} AllPagesAppend(a: seq<FilePath>, b: seq<FilePath>, read: Reader)
    requires AllReadable(a, read) && AllReadable(b, read)
    ensures AllReadable(a + b, read)
    ensures AllPages(a + b, read) == AllPages(a, read) + AllPages(b, read)
    decreases |b|
  {
    if b == [] {
      assert a + b == a;
    } else {
      var init := b[..|b| - 1];
      assert AllReadable(init, read);
      AllPagesAppend(a, init, read);
      assert (a + b)[..|a + b| - 1] == a + init;
    }
  }

  /** A single input contributes exactly its pages. */
  lemma AllPagesOne(p: FilePath, read: Reader)
    requires read(p).Some?
    ensures AllReadable([p], read)
    ensures AllPages([p], read) == read(p).value.pages
  {
    assert [p][..0] == [];
  }

  /** The merged output: every page of the first input, then every page of the rest, in list order. */
  lemma MergedInOrder(inputs: seq<FilePath>, probe: Probe, read: Reader)
    requires MergeSpec(inputs, probe, read).Success?
    ensures AllReadable(inputs[1..], read)
    ensures MergeSpec(inputs, probe, read).value == read(inputs[0]).value.pages + AllPages(inputs[1..], read)
  {
    MergeSucceeds(inputs, probe, read);
    AllPagesOne(inputs[0], read);
    AllPagesAppend([inputs[0]], inputs[1..], read);
    assert [inputs[0]] + inputs[1..] == inputs;
  }

  // ----- the merge tab -----

  /** What `execute_merge` decides before the worker starts. */
  datatype MergePlan =
    | TooFewFiles
    | NoOutputName
    | Declined(out: FilePath)
    | Start(out: FilePath)

  /** The output folder: the stripped entry, else the first file's folder. */
  function MergeFolder(paths: seq<FilePath>, rawDir: string): (r: string)
    requires paths != []
    ensures r == (if Strip(rawDir) == [] then paths[0].dir else Strip(rawDir))
  {
    match FolderOf(rawDir)
    case Some(d) => d
    case None => paths[0].dir
  }

  /**
   * `execute_merge` of the later merge tab: at least two files, the stripped
   * name or "{first stem}_結合済み.pdf", ".pdf" forced, then the overwrite question.
   */
  function MergePlanFor(paths: seq<FilePath>, rawName: string, rawDir: string, confirm: FilePath -> bool): (r: MergePlan)
    ensures r.TooFewFiles? <==> |paths| < 2
    ensures !r.NoOutputName?
    ensures (r.Start? || r.Declined?) ==> HasPdfSuffix(r.out.name) && r.out.dir == MergeFolder(paths, rawDir)
    ensures r.Start? ==> confirm(r.out)
    ensures r.Declined? ==> !confirm(r.out)
  {
    if |paths| < 2 then TooFewFiles
    else
      var entered := Strip(rawName);
      var filename := EnsurePdf(if entered == [] then MergeDefaultName(paths[0]) else entered);
      var out := FilePath(MergeFolder(paths, rawDir), filename);
      if confirm(out) then Start(out) else Declined(out)
  }

  /** `execute_merge` of the earlier merge tab: the same, except that a blank name is refused. */
  function MergePlanFor0112(paths: seq<FilePath>, rawName: string, rawDir: string, confirm: FilePath -> bool): (r: MergePlan)
    ensures r.TooFewFiles? <==> |paths| < 2
    ensures r.NoOutputName? <==> |paths| >= 2 && Strip(rawName) == []
    ensures (r.Start? || r.Declined?) ==> r.out == FilePath(MergeFolder(paths, rawDir), EnsurePdf(Strip(rawName)))
    ensures r.Start? ==> confirm(r.out)
    ensures r.Declined? ==> !confirm(r.out)
  {
    if |paths| < 2 then TooFewFiles
    else
      var filename := Strip(rawName);
      if filename == [] then NoOutputName
      else
        var out := FilePath(MergeFolder(paths, rawDir), EnsurePdf(filename));
        if confirm(out) then Start(out) else Declined(out)
  }

  /** The two tabs plan the same output whenever a name is entered. */
  lemma MergeTabsAgree(paths: seq<FilePath>, rawName: string, rawDir: string, confirm: FilePath -> bool)
    requires |paths| >= 2 && Strip(rawName) != []
    ensures MergePlanFor(paths, rawName, rawDir, confirm) == MergePlanFor0112(paths, rawName, rawDir, confirm)
  {
  }

  /**
   * On a blank name the earlier tab refuses, where the later one merges into
   * "{first stem}_結合済み.pdf" in the chosen folder or beside the first file.
   */
  lemma MergeDefaultOutput(paths: seq<FilePath>, rawName: string, rawDir: string, confirm: FilePath -> bool)
    requires |paths| >= 2 && Strip(rawName) == []
    ensures MergePlanFor0112(paths, rawName, rawDir, confirm) == NoOutputName
    ensures MergePlanFor(paths, rawName, rawDir, confirm).out ==
            FilePath(MergeFolder(paths, rawDir), MergeDefaultName(paths[0]))
  {
    PdfAppended(Stem(paths[0]) + "_結合済み");
  }

  // ----- the order line of the merge summary -----

  const Arrow: string := " → "

  /** `sep.join(pieces)`. */
  function Join(pieces: seq<string>, sep: string): string
  {
    if pieces == [] then ""
    else if |pieces| == 1 then pieces[0]
    else pieces[0] + sep + Join(pieces[1..], sep)
  }

  /** Joining two non-empty lists is joining each and gluing them with the separator. */
  lemma {:induction false} JoinAppend(a: seq<string>, b: seq<string>, sep: string)
    requires a != [] && b != []
    ensures Join(a + b, sep) == Join(a, sep) + sep + Join(b, sep)
    decreases |a|
  {
    if |a| == 1 {
      assert (a + b)[1..] == b;
    } else {
      JoinAppend(a[1..], b, sep);
      assert (a + b)[1..] == a[1..] + b;
    }
  }

  /** `s` is the decimal numeral of `n`. */
  predicate Numeral(s: string, n: nat)
  {
    s != [] && (forall k :: 0 <= k < |s| ==> IsDigit(s[k])) && DigitsValue(s) == n
  }

  /** The first `k` names joined are a prefix of all of them joined. */
  lemma JoinPrefix(names: seq<string>, k: nat)
    requires 1 <= k <= |names|
    ensures Join(names[..k], Arrow) <= Join(names, Arrow)
  {
    if k < |names| {
      JoinAppend(names[..k], names[k..], Arrow);
      assert names[..k] + names[k..] == names;
    } else {
      assert names[..k] == names;
    }
  }

  /** The order line of `_update_merge_summary`: the joined names, or the first three and the count when longer than 80 characters. */
  function OrderSummary(names: seq<string>): string
  {
    if names == [] then "並び順：-"
    else
      var joined := Join(names, Arrow);
      if |joined| > 80 then
        var shown := if |names| < 3 then |names| else 3;
        "並び順：" + Join(names[..shown], Arrow) + Arrow + "…（" + NatToString(|names|) + "件）"
      else "並び順：" + joined
  }

  /**
   * The order line lists every name in order when the joined text fits in
   * 80 characters; otherwise it shows a prefix of that same text, ending
   * with the first three names, followed by the number of files.
   */
  lemma OrderSummaryMeaning(names: seq<string>)
    requires names != []
    ensures |Join(names, Arrow)| <= 80 ==> OrderSummary(names) == "並び順：" + Join(names, Arrow)
    ensures |Join(names, Arrow)| > 80 ==> exists shown: string, count: string ::
      shown <= Join(names, Arrow) && Numeral(count, |names|) &&
      OrderSummary(names) == "並び順：" + shown + Arrow + "…（" + count + "件）"
    ensures |names| > 3 ==> Join(names[..3], Arrow) <= Join(names, Arrow)
  {
    if |names| > 3 {
      JoinPrefix(names, 3);
    }
    if |Join(names, Arrow)| > 80 {
      var k := if |names| < 3 then |names| else 3;
      var shown := Join(names[..k], Arrow);
      var count := NatToString(|names|);
      JoinPrefix(names, k);
      NatToStringRoundTrip(|names|);
      assert Numeral(count, |names|);
      assert OrderSummary(names) == "並び順：" + shown + Arrow + "…（" + count + "件）";
    }
  }
}
