/**
 * File paths and output-name derivation shared by the tabs: the `{name}`
 * pattern, the forced ".pdf" suffix and the per-tab default names.
 */
module Naming {
  import opened Wrappers
  import opened Text

  /** A file path as a directory and a final component (`Path.parent`, `Path.name`). */
  datatype FilePath = FilePath(dir: string, name: string)

  /**
   * `Path.stem`: the name cut at its last dot, when that dot is neither the
   * first nor the last character; otherwise the whole name.
   */
  function Stem(p: FilePath): (r: string)
    ensures |r| <= |p.name| && r == p.name[..|r|]
    ensures r != p.name ==> p.name[|r|] == '.' && 0 < |r| < |p.name| - 1
  {
    if '.' in p.name then
      var i := LastIndex(p.name, '.');
      if 0 < i < |p.name| - 1 then p.name[..i] else p.name
    else p.name
  }

  /**
   * The stem is cut exactly at the last dot when that dot is interior: no
   * dot follows the cut; and the whole name is kept only when there is no
   * interior dot or the name ends in a dot.
   */
  lemma StemCut(p: FilePath)
    ensures var r := Stem(p);
      r != p.name ==> forall k :: |r| < k < |p.name| ==> p.name[k] != '.'
    ensures var r := Stem(p);
      r == p.name && p.name != [] && p.name[|p.name| - 1] != '.' ==> forall k :: 0 < k < |p.name| - 1 ==> p.name[k] != '.'
  {
    var name := p.name;
    if '.' in name {
      var i := LastIndex(name, '.');
      if !(0 < i < |name| - 1) && name != [] && name[|name| - 1] != '.' {
        assert i == 0;
      }
    }
  }

  function LastIndex(s: string, c: char): (i: nat)
    requires c in s
    ensures i < |s| && s[i] == c && c !in s[i + 1..]
    ensures forall k :: i < k < |s| ==> s[k] != c
  {
    if s[|s| - 1] == c then |s| - 1
    else
      assert c in s[..|s| - 1] by {
        var k :| 0 <= k < |s| && s[k] == c;
        assert s[..|s| - 1][k] == c;
      }
      LastIndex(s[..|s| - 1], c)
  }

  const NameToken: string := "{name}"

  /** `pattern.replace("{name}", stem) if "{name}" in pattern else pattern`. */
  function Substitute(pattern: string, stem: string): string
  {
    if Contains(pattern, NameToken) then ReplaceAll(pattern, NameToken, stem) else pattern
  }

  /** The membership test in front of the replacement changes nothing. */
  lemma SubstituteIsReplace(pattern: string, stem: string)
    ensures Substitute(pattern, stem) == ReplaceAll(pattern, NameToken, stem)
  {
    if !Contains(pattern, NameToken) {
      ReplaceAbsent(pattern, NameToken, stem);
    }
  }

  /** Text without a `{` cannot contain the token. */
  lemma NoBraceNoToken(t: string)
    requires '{' !in t
    ensures !Contains(t, NameToken)
  {
    forall i: nat | i <= |t|
      ensures !OccursAt(t, NameToken, i)
    {
      if i < |t| {
        assert t[i] != '{';
      }
    }
  }

  /** A template "{name}<suffix>" yields the stem followed by the suffix. */
  lemma {:induction false} TemplateYieldsStem(suffix: string, stem: string)
    requires '{' !in suffix
    ensures Substitute(NameToken + suffix, stem) == stem + suffix
  {
    assert OccursAt(NameToken + suffix, NameToken, 0);
    ReplaceAtFront(NameToken, suffix, stem);
    NoBraceNoToken(suffix);
    ReplaceAbsent(suffix, NameToken, stem);
  }

  /** The output file name for a source stem and a user pattern: substitute, then force ".pdf". */
  function PatternName(pattern: string, stem: string): (r: string)
    ensures HasPdfSuffix(r)
    ensures !Contains(pattern, NameToken) ==> r == EnsurePdf(pattern)
  {
    EnsurePdf(Substitute(pattern, stem))
  }

  // ----- default names of the 0107 single-window application -----

  function MergeDefaultName0107(paths: seq<FilePath>): (r: string)
  {
    if paths == [] then "空欄:'元ファイル名'_ほかN件_結合済" + ".pdf"
    else if |paths| == 1 then Stem(paths[0]) + "_結合済" + ".pdf"
    else Stem(paths[0]) + "_ほか" + NatToString(|paths| - 1) + "件_結合済" + ".pdf"
  }

  function SplitDefaultName0107(mode: string, src: FilePath): string
  {
    Stem(src) + (if mode == "keep" then "_抽出済" else "_削除済") + ".pdf"
  }

  function ReorderDefaultName0107(src: FilePath): string
  {
    Stem(src) + "_並び替え済" + ".pdf"
  }

  function CompressDefaultName0107(src: FilePath): string
  {
    Stem(src) + "_圧縮済" + ".pdf"
  }

  function LockDefaultName0107(mode: string, src: FilePath): string
  {
    Stem(src) + (if mode == "set" then "_locked" else "_unlocked") + ".pdf"
  }

  function TextDefaultName0107(src: FilePath): string
  {
    Stem(src) + ".txt"
  }

  /** Every 0107 default name for a PDF output keeps the source stem and already ends in ".pdf". */
  lemma DefaultNames0107(mode: string, src: FilePath, paths: seq<FilePath>)
    ensures HasPdfSuffix(SplitDefaultName0107(mode, src)) && HasPdfSuffix(ReorderDefaultName0107(src))
    ensures HasPdfSuffix(CompressDefaultName0107(src)) && HasPdfSuffix(LockDefaultName0107(mode, src))
    ensures HasPdfSuffix(MergeDefaultName0107(paths))
    ensures Stem(src) <= SplitDefaultName0107(mode, src) && Stem(src) <= LockDefaultName0107(mode, src)
    ensures paths != [] ==> Stem(paths[0]) <= MergeDefaultName0107(paths)
  {
    var s := Stem(src);
    PdfAppended(s + (if mode == "keep" then "_抽出済" else "_削除済"));
    PdfAppended(s + "_並び替え済");
    PdfAppended(s + "_圧縮済");
    PdfAppended(s + (if mode == "set" then "_locked" else "_unlocked"));
    if paths == [] {
      PdfAppended("空欄:'元ファイル名'_ほかN件_結合済");
    } else if |paths| == 1 {
      PdfAppended(Stem(paths[0]) + "_結合済");
    } else {
      PdfAppended(Stem(paths[0]) + "_ほか" + NatToString(|paths| - 1) + "件_結合済");
    }
  }

  // ----- default names of the tabbed application -----

  /** Split tab: "{stem}_抽出済み.pdf" for keep, "{stem}_削除済み.pdf" otherwise. */
  function SplitDefaultName(mode: string, src: FilePath): string
  {
    Stem(src) + (if mode == "keep" then "_抽出済み" else "_削除済み") + ".pdf"
  }

  /** Compress tab: "{stem}_圧縮済み.pdf". */
  function CompressDefaultName(src: FilePath): string
  {
    Stem(src) + "_圧縮済み" + ".pdf"
  }

  /** Merge tab: "{first stem}_結合済み.pdf". */
  function MergeDefaultName(first: FilePath): string
  {
    Stem(first) + "_結合済み" + ".pdf"
  }

  const LockPattern: string := "{name}_ロック済み.pdf"
  const UnlockPattern: string := "{name}_解除済み.pdf"
  const CompressPattern: string := "{name}_圧縮済み.pdf"

  /** `_build_out_path` of the password tab: substituted, ".pdf" forced, beside the source unless a folder is given. */
  function BuildOutPath(src: FilePath, pattern: string, outDir: Option<string>): (r: FilePath)
    ensures r.dir == (if outDir.Some? then outDir.value else src.dir)
    ensures HasPdfSuffix(r.name)
    ensures !Contains(pattern, NameToken) ==> r.name == EnsurePdf(pattern)
  {
    FilePath(if outDir.Some? then outDir.value else src.dir, PatternName(pattern, Stem(src)))
  }

  /** A pattern "{name}<body>.pdf" names the output "<stem><body>.pdf". */
  lemma {:induction false} TemplatePdf(body: string, stem: string)
    requires '{' !in body
    ensures PatternName(NameToken + body + ".pdf", stem) == stem + body + ".pdf"
  {
    assert NameToken + body + ".pdf" == NameToken + (body + ".pdf");
    TemplateYieldsStem(body + ".pdf", stem);
    assert stem + (body + ".pdf") == (stem + body) + ".pdf";
    PdfAppended(stem + body);
  }

  /** The default lock and unlock patterns name the output "{stem}_ロック済み.pdf" / "{stem}_解除済み.pdf". */
  lemma DefaultPasswordPatterns(src: FilePath, outDir: Option<string>)
    ensures BuildOutPath(src, LockPattern, outDir).name == Stem(src) + "_ロック済み" + ".pdf"
    ensures BuildOutPath(src, UnlockPattern, outDir).name == Stem(src) + "_解除済み" + ".pdf"
  {
    assert LockPattern == NameToken + "_ロック済み" + ".pdf";
    assert UnlockPattern == NameToken + "_解除済み" + ".pdf";
    TemplatePdf("_ロック済み", Stem(src));
    TemplatePdf("_解除済み", Stem(src));
  }

  /** The compress tab's output name: the default when the pattern is empty, else the pattern rule. */
  function CompressOutName(src: FilePath, pattern: string): (r: string)
    ensures pattern == [] ==> r == CompressDefaultName(src)
    ensures pattern != [] ==> r == PatternName(pattern, Stem(src))
  {
    if pattern == [] then CompressDefaultName(src) else PatternName(pattern, Stem(src))
  }

  /** The compress tab's output path: in the chosen folder, else beside the source (`with_name`). */
  function CompressOutPath(src: FilePath, pattern: string, outDir: Option<string>): (r: FilePath)
    ensures r.dir == (if outDir.Some? then outDir.value else src.dir)
    ensures r.name == CompressOutName(src, pattern)
  {
    FilePath(if outDir.Some? then outDir.value else src.dir, CompressOutName(src, pattern))
  }

  /** Typing the placeholder pattern "{name}_圧縮済み.pdf" gives the same name as leaving the field empty. */
  lemma CompressPatternMatchesDefault(src: FilePath)
    ensures CompressOutName(src, CompressPattern) == CompressOutName(src, "")
  {
    assert CompressPattern == NameToken + "_圧縮済み" + ".pdf";
    TemplatePdf("_圧縮済み", Stem(src));
  }

  /** A blank folder field means "beside the source". */
  function FolderOf(raw: string): (r: Option<string>)
    ensures r.None? <==> Strip(raw) == []
  {
    if Strip(raw) == [] then None else Some(Strip(raw))
  }
}
