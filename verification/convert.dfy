/**
 * The convert tab's `run_convert`: the guards, the `{name}` pattern, the
 * Word and Excel output paths, the overwrite question per output, the
 * skipped count, and the closing tally. The conversion itself is not part
 * of this model; its success count is a parameter.
 */
module Convert {
  import opened Wrappers
  import opened Text
  import opened Naming
  import opened Seqs

  /** One conversion: the source and the outputs still wanted after the overwrite questions. */
  datatype ConvertTask = ConvertTask(src: FilePath, word: Option<FilePath>, excel: Option<FilePath>)

  /** How `run_convert` ends before the worker starts, or the tasks it starts with. */
  datatype ConvertRun =
    | NoFiles
    | NoFormat
    | AllSkipped(skipped: nat)
    | Started(tasks: seq<ConvertTask>, skipped: nat)

  /** The stripped pattern, or `{name}` when it is blank. */
  function ConvertPattern(raw: string): (r: string)
    ensures r != []
    ensures Strip(raw) == [] ==> r == NameToken
  {
    if Strip(raw) == [] then NameToken else Strip(raw)
  }

  /** What the tab's widgets hold once the guards pass: the pattern, the folder, the formats, and the overwrite question. */
  datatype Settings = Settings(pattern: string, outDir: Option<string>, toWord: bool, toExcel: bool, confirm: FilePath -> bool)

  /** The output folder: the chosen one, else the source's own. */
  function BaseDir(src: FilePath, outDir: Option<string>): string
  {
    if outDir.Some? then outDir.value else src.dir
  }

  /** `base_dir / f"{base_name}{ext}"`: the substituted pattern with the format's extension, in the output folder. */
  function OutputPath(src: FilePath, s: Settings, ext: string): (r: FilePath)
    ensures r.dir == BaseDir(src, s.outDir) && EndsWith(r.name, ext)
  {
    var name := Substitute(s.pattern, Stem(src)) + ext;
    assert name[|name| - |ext|..] == ext;
    FilePath(BaseDir(src, s.outDir), name)
  }

  /** The Word output of a source. */
  function WordPath(src: FilePath, s: Settings): FilePath
  {
    OutputPath(src, s, ".docx")
  }

  /** The Excel output of a source. */
  function ExcelPath(src: FilePath, s: Settings): FilePath
  {
    OutputPath(src, s, ".xlsx")
  }

  /** One output of the chosen format, or none when the format is off or its overwrite is declined. */
  function Wanted(on: bool, out: FilePath, confirm: FilePath -> bool): (r: Option<FilePath>)
    ensures r.Some? <==> on && confirm(out)
    ensures r.Some? ==> r.value == out
  {
    if on && confirm(out) then Some(out) else None
  }

  /** The task for one source, or None when both outputs were dropped and the source is skipped. */
  function TaskFor(src: FilePath, s: Settings): (r: Option<ConvertTask>)
    ensures r.None? <==> (!s.toWord || !s.confirm(WordPath(src, s))) && (!s.toExcel || !s.confirm(ExcelPath(src, s)))
    ensures r.Some? ==> r.value.src == src && (r.value.word.Some? || r.value.excel.Some?)
    ensures r.Some? && r.value.word.Some? ==> s.toWord && s.confirm(r.value.word.value) && r.value.word.value == WordPath(src, s)
    ensures r.Some? && r.value.excel.Some? ==> s.toExcel && s.confirm(r.value.excel.value) && r.value.excel.value == ExcelPath(src, s)
  {
    var word := Wanted(s.toWord, WordPath(src, s), s.confirm);
    var excel := Wanted(s.toExcel, ExcelPath(src, s), s.confirm);
    if word.None? && excel.None? then None else Some(ConvertTask(src, word, excel))
  }

  /** `TaskFor` as a function of the source alone. */
  function TaskOf(s: Settings): (r: FilePath -> Option<ConvertTask>)
    ensures forall src :: r(src) == TaskFor(src, s)
  {
    src => TaskFor(src, s)
  }

  /** The tasks for all sources, in order, skipped ones left out. */
  function Tasks(files: seq<FilePath>, s: Settings): (r: seq<ConvertTask>)
    ensures |r| <= |files|
  {
    Collect(files, TaskOf(s))
  }

  /** Every source that was not skipped has its task in the list. */
  lemma TaskListed(files: seq<FilePath>, s: Settings, i: nat)
    requires i < |files| && TaskFor(files[i], s).Some?
    ensures TaskFor(files[i], s).value in Tasks(files, s)
  {
    CollectListed(files, TaskOf(s), i);
  }

  /** Every task in the list comes from a source that was not skipped. */
  lemma TaskFromSource(files: seq<FilePath>, s: Settings, t: ConvertTask)
    requires t in Tasks(files, s)
    ensures exists i :: 0 <= i < |files| && TaskFor(files[i], s) == Some(t)
  {
    CollectFrom(files, TaskOf(s), t);
    var i :| 0 <= i < |files| && TaskOf(s)(files[i]) == Some(t);
  }

  /** The loop body of `run_convert` for one source: each chosen output, dropped when its overwrite is declined. */
  method SourceTask(src: FilePath, s: Settings) returns (task: Option<ConvertTask>)
    ensures task == TaskFor(src, s)
  {
    var word: Option<FilePath> := if s.toWord then Some(WordPath(src, s)) else None;
    var excel: Option<FilePath> := if s.toExcel then Some(ExcelPath(src, s)) else None;
    if word.Some? && !s.confirm(word.value) {
      word := None;
    }
    if excel.Some? && !s.confirm(excel.value) {
      excel := None;
    }
    assert word == Wanted(s.toWord, WordPath(src, s), s.confirm) && excel == Wanted(s.toExcel, ExcelPath(src, s), s.confirm);
    task := if word.None? && excel.None? then None else Some(ConvertTask(src, word, excel));
  }

  /** After the first `i` sources: their tasks are collected, and the rest were counted as skipped. */
  ghost predicate TasksUpTo(files: seq<FilePath>, s: Settings, i: nat, tasks: seq<ConvertTask>, skipped: nat)
  {
    i <= |files| && tasks == Tasks(files[..i], s) && |tasks| + skipped == i
  }

  /** One more source: its task is appended, or it counts as skipped. */
  lemma TasksNext(files: seq<FilePath>, s: Settings, i: nat, tasks: seq<ConvertTask>, skipped: nat)
    requires i < |files| && TasksUpTo(files, s, i, tasks, skipped)
    ensures var task := TaskFor(files[i], s);
      task.None? ==> TasksUpTo(files, s, i + 1, tasks, skipped + 1)
    ensures var task := TaskFor(files[i], s);
      task.Some? ==> TasksUpTo(files, s, i + 1, tasks + [task.value], skipped)
  {
    CollectAppend(files, TaskOf(s), i);
  }

  /** The task loop of `run_convert`: every source either adds a task or one to `skipped`. */
  method BuildConvertTasks(files: seq<FilePath>, s: Settings) returns (tasks: seq<ConvertTask>, skipped: nat)
    ensures tasks == Tasks(files, s)
    ensures |tasks| + skipped == |files|
  {
    tasks := [];
    skipped := 0;
    for i := 0 to |files|
      invariant TasksUpTo(files, s, i, tasks, skipped)
    {
      var task := SourceTask(files[i], s);
      TasksNext(files, s, i, tasks, skipped);
      if task.None? {
        skipped := skipped + 1;
      } else {
        tasks := tasks + [task.value];
      }
    }
    assert files[..|files|] == files;
  }

  /** `run_convert` up to the worker: no files, no format, the pattern default, the tasks, and the all-skipped stop. */
  method RunConvert(files: seq<FilePath>, toWord: bool, toExcel: bool, rawDir: string, rawPattern: string, confirm: FilePath -> bool)
    returns (run: ConvertRun)
    ensures files == [] ==> run == NoFiles
    ensures files != [] && !toWord && !toExcel ==> run == NoFormat
    ensures files != [] && (toWord || toExcel) ==> run.AllSkipped? || run.Started?
    ensures run.AllSkipped? ==>
      run.skipped == |files| && Tasks(files, Settings(ConvertPattern(rawPattern), FolderOf(rawDir), toWord, toExcel, confirm)) == []
    ensures run.Started? ==>
      run.tasks != [] && |run.tasks| + run.skipped == |files| &&
      run.tasks == Tasks(files, Settings(ConvertPattern(rawPattern), FolderOf(rawDir), toWord, toExcel, confirm))
  {
    if files == [] {
      return NoFiles;
    }
    if !(toWord || toExcel) {
      return NoFormat;
    }
    var outDir := FolderOf(rawDir);
    var pattern := Strip(rawPattern);
    if pattern == [] {
      pattern := NameToken;
    }
    var tasks, skipped := BuildConvertTasks(files, Settings(pattern, outDir, toWord, toExcel, confirm));
    if tasks == [] {
      return AllSkipped(skipped);
    }
    return Started(tasks, skipped);
  }

  // ----- the closing message -----

  /** The lines of the closing message: successes of the total, then skips and failures when there are any. */
  function FinishLines(success: nat, total: nat, skipped: nat): seq<string>
  {
    ["PDF → Word/Excel の変換が完了しました。",
     "成功: " + NatToString(success) + " 件 / 合計: " + NatToString(total) + " 件"] +
    (if skipped > 0 then ["スキップ: " + NatToString(skipped) + " 件（上書き拒否など）"] else []) +
    (if total - success > 0 then ["失敗: " + NatToString(total - success) + " 件"] else [])
  }

  /**
   * The failed count is the tasks that did not succeed: the message has a
   * failure line exactly when fewer tasks succeeded than were started, and
   * a skip line exactly when some source was skipped.
   */
  lemma FinishLinesMeaning(success: nat, total: nat, skipped: nat)
    ensures |FinishLines(success, total, skipped)| ==
      2 + (if skipped > 0 then 1 else 0) + (if success < total then 1 else 0)
    ensures success < total ==>
      FinishLines(success, total, skipped)[|FinishLines(success, total, skipped)| - 1] == "失敗: " + NatToString(total - success) + " 件"
    ensures skipped > 0 ==>
      FinishLines(success, total, skipped)[2] == "スキップ: " + NatToString(skipped) + " 件（上書き拒否など）"
  {
  }
}
