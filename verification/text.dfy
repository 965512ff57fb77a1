/**
 * The string operations the Python code relies on: `str.strip`, `str.split`,
 * `in`, `str.replace`, `str.lower().endswith`, `int(...)` and `str(n)`.
 */
module Text {
  import opened Wrappers

  /**
   * The whitespace Python's `str.strip()` removes (`str.isspace()`): the
   * ASCII controls \t \n \v \f \r, the separators U+001C to U+001F, the
   * space, U+0085, U+00A0, U+1680, U+2000 to U+200A, U+2028, U+2029,
   * U+202F, U+205F and the ideographic space U+3000.
   */
  predicate IsSpace(c: char)
  {
    var n := c as int;
    (9 <= n <= 13) || (28 <= n <= 32) || n == 0x85 || n == 0xA0 || n == 0x1680 ||
    (0x2000 <= n <= 0x200A) || n == 0x2028 || n == 0x2029 || n == 0x202F || n == 0x205F || n == 0x3000
  }

  function TrimLeft(s: string): (r: string)
    ensures |r| <= |s| && r == s[|s| - |r|..]
    ensures r == [] || !IsSpace(r[0])
    ensures forall k :: 0 <= k < |s| - |r| ==> IsSpace(s[k])
  {
    if s != [] && IsSpace(s[0]) then
      var r := TrimLeft(s[1..]);
      assert forall k :: 1 <= k < |s| - |r| ==> s[k] == s[1..][k - 1];
      assert s[1..][|s| - 1 - |r|..] == s[|s| - |r|..];
      r
    else s
  }

  function TrimRight(s: string): (r: string)
    ensures |r| <= |s| && r == s[..|r|]
    ensures r == [] || !IsSpace(r[|r| - 1])
    ensures forall k :: |r| <= k < |s| ==> IsSpace(s[k])
  {
    if s != [] && IsSpace(s[|s| - 1]) then
      var r := TrimRight(s[..|s| - 1]);
      assert s[..|s| - 1][..|r|] == s[..|r|];
      r
    else s
  }

  /** Python's `s.strip()`. */
  function Strip(s: string): (r: string)
    ensures r == [] || (!IsSpace(r[0]) && !IsSpace(r[|r| - 1]))
    ensures |r| <= |s|
  {
    TrimRight(TrimLeft(s))
  }

  /**
   * What stripping removes: the result is a slice of the text, and every
   * character cut off on either side is whitespace.
   */
  lemma StripMeaning(s: string)
    ensures exists i, j :: 0 <= i <= j <= |s| && Strip(s) == s[i..j] && Trimmed(s, i, j)
  {
    var l := TrimLeft(s);
    var i := |s| - |l|;
    var j := i + |Strip(s)|;
    assert Strip(s) == s[i..j] by {
      assert l == s[i..];
    }
    assert Trimmed(s, i, j) by {
      assert forall k :: j <= k < |s| ==> s[k] == l[k - i];
    }
  }

  /** Every character of `s` before `i` and from `j` on is whitespace. */
  predicate Trimmed(s: string, i: nat, j: nat)
  {
    forall k :: 0 <= k < |s| && (k < i || j <= k) ==> IsSpace(s[k])
  }

  /** Number of occurrences of `c` in `s`. */
  function Count(s: string, c: char): nat
  {
    if s == [] then 0 else (if s[0] == c then 1 else 0) + Count(s[1..], c)
  }

  /** Inverse of SplitOn: the pieces glued back with the separator. */
  function JoinWith(pieces: seq<string>, sep: char): string
  {
    if pieces == [] then ""
    else if |pieces| == 1 then pieces[0]
    else pieces[0] + [sep] + JoinWith(pieces[1..], sep)
  }

  /** Python's `s.split(sep)` for a one-character separator. */
  function SplitOn(s: string, sep: char): (r: seq<string>)
    ensures |r| == Count(s, sep) + 1
    ensures forall k :: 0 <= k < |r| ==> sep !in r[k]
    ensures JoinWith(r, sep) == s
  {
    if s == [] then [""]
    else
      var rest := SplitOn(s[1..], sep);
      if s[0] == sep then
        assert s == [sep] + s[1..];
        [""] + rest
      else
        assert s == [s[0]] + s[1..];
        [[s[0]] + rest[0]] + rest[1..]
  }

  /** Index of the first `c` in `s`. */
  function FirstIndex(s: string, c: char): (i: nat)
    requires c in s
    ensures i < |s| && s[i] == c && c !in s[..i]
  {
    if s[0] == c then 0 else FirstIndex(s[1..], c) + 1
  }

  /** Python's `s.split(sep, 1)` when `sep in s`: the text before and after the first `sep`. */
  function SplitOnce(s: string, sep: char): (r: (string, string))
    requires sep in s
    ensures r.0 + [sep] + r.1 == s && sep !in r.0
  {
    var i := FirstIndex(s, sep);
    assert s == s[..i] + [sep] + s[i + 1..];
    (s[..i], s[i + 1..])
  }

  predicate IsDigit(c: char) { '0' as int <= c as int <= '9' as int }

  function DigitsValue(d: string): (n: nat)
    requires forall k :: 0 <= k < |d| ==> IsDigit(d[k])
  {
    if d == [] then 0
    else
      assert IsDigit(d[|d| - 1]);
      DigitsValue(d[..|d| - 1]) * 10 + (d[|d| - 1] as int - '0' as int)
  }

  /**
   * Python's `int(s)` for text it accepts without raising: optional surrounding
   * whitespace, an optional sign and one or more ASCII digits; None stands for ValueError.
   */
  function ParseInt(s: string): (r: Option<int>)
    ensures r.Some? ==> Strip(s) != []
  {
    ParseSigned(Strip(s))
  }

  /** An optional sign followed by one or more ASCII digits, and nothing else. */
  function ParseSigned(t: string): (r: Option<int>)
    ensures r.Some? ==> t != []
  {
    var sign := if t != [] && (t[0] == '+' || t[0] == '-') then t[0] else ' ';
    var d := if sign == ' ' then t else t[1..];
    if d != [] && forall k :: 0 <= k < |d| ==> IsDigit(d[k]) then
      Some(if sign == '-' then 0 - DigitsValue(d) as int else DigitsValue(d) as int)
    else None
  }

  /** The decimal digits of `n`, as `str(n)`. */
  function NatToString(n: nat): (r: string)
    ensures r != [] && forall k :: 0 <= k < |r| ==> IsDigit(r[k])
  {
    var last := [('0' as int + n % 10) as char];
    if n < 10 then last else NatToString(n / 10) + last
  }

  lemma {:induction false} NatToStringRoundTrip(n: nat)
    ensures DigitsValue(NatToString(n)) == n
  {
    var r := NatToString(n);
    if n >= 10 {
      NatToStringRoundTrip(n / 10);
      assert r[..|r| - 1] == NatToString(n / 10);
    }
  }

  /** `pat` occurs in `s` starting at `i`. */
  predicate OccursAt(s: string, pat: string, i: nat)
  {
    i + |pat| <= |s| && s[i..i + |pat|] == pat
  }

  /** Python's `pat in s`. */
  predicate Contains(s: string, pat: string)
  {
    exists i: nat | i <= |s| :: OccursAt(s, pat, i)
  }

  /** Python's `s.replace(pat, rep)`: every non-overlapping occurrence, left to right. */
  function ReplaceAll(s: string, pat: string, rep: string): string
    requires pat != []
    decreases |s|
  {
    if |s| < |pat| then s
    else if s[..|pat|] == pat then rep + ReplaceAll(s[|pat|..], pat, rep)
    else [s[0]] + ReplaceAll(s[1..], pat, rep)
  }

  /** Replacing a pattern that does not occur leaves the text as it is. */
  lemma {:induction false} ReplaceAbsent(s: string, pat: string, rep: string)
    requires pat != [] && !Contains(s, pat)
    ensures ReplaceAll(s, pat, rep) == s
    decreases |s|
  {
    if |s| >= |pat| {
      assert !OccursAt(s, pat, 0);
      assert s[..|pat|] == s[0..0 + |pat|];
      forall i: nat | i <= |s[1..]| && OccursAt(s[1..], pat, i)
        ensures false
      {
        assert s[1..][i..i + |pat|] == s[i + 1..i + 1 + |pat|];
        assert OccursAt(s, pat, i + 1);
      }
      ReplaceAbsent(s[1..], pat, rep);
    }
  }

  /** A pattern at the very front is replaced, and the rest is processed on its own. */
  lemma ReplaceAtFront(pat: string, t: string, rep: string)
    requires pat != []
    ensures ReplaceAll(pat + t, pat, rep) == rep + ReplaceAll(t, pat, rep)
  {
    assert (pat + t)[..|pat|] == pat;
    assert (pat + t)[|pat|..] == t;
  }

  /** ASCII upper-case letters to lower case, as `str.lower()` does for them. */
  function LowerChar(c: char): char
  {
    if 'A' <= c <= 'Z' then (c as int + 32) as char else c
  }

  function Lower(s: string): (r: string)
    ensures |r| == |s| && forall k :: 0 <= k < |s| ==> r[k] == LowerChar(s[k])
  {
    seq(|s|, k requires 0 <= k < |s| => LowerChar(s[k]))
  }

  predicate EndsWith(s: string, suffix: string)
  {
    |suffix| <= |s| && s[|s| - |suffix|..] == suffix
  }

  /** Python's `name.lower().endswith(".pdf")`. */
  predicate HasPdfSuffix(name: string)
  {
    EndsWith(Lower(name), ".pdf")
  }

  /** `name`, with ".pdf" appended unless it already ends so in any letter case. */
  function EnsurePdf(name: string): (r: string)
    ensures HasPdfSuffix(r)
    ensures HasPdfSuffix(name) ==> r == name
    ensures !HasPdfSuffix(name) ==> r == name + ".pdf"
  {
    if HasPdfSuffix(name) then name
    else
      var r := name + ".pdf";
      assert Lower(r)[|r| - 4..] == ".pdf";
      r
  }

  /** Anything followed by ".pdf" has the suffix. */
  lemma PdfAppended(x: string)
    ensures HasPdfSuffix(x + ".pdf")
    ensures EnsurePdf(x + ".pdf") == x + ".pdf"
  {
    var r := x + ".pdf";
    assert Lower(r)[|r| - 4..] == ".pdf";
  }

  // ----- comma-separated fields with blank ones dropped -----

  predicate AllSpace(w: string)
  {
    forall k :: 0 <= k < |w| ==> IsSpace(w[k])
  }

  /** `[p.strip() for p in pieces if p.strip()]`. */
  function NonBlank(pieces: seq<string>): (r: seq<string>)
    ensures forall k :: 0 <= k < |r| ==> r[k] != []
  {
    if pieces == [] then []
    else
      var head := Strip(pieces[0]);
      (if head == [] then [] else [head]) + NonBlank(pieces[1..])
  }

  lemma StripIdempotent(s: string)
    ensures Strip(Strip(s)) == Strip(s)
  {
    var r := Strip(s);
    if r != [] {
      assert TrimLeft(r) == r;
    }
  }

  lemma {:induction false} TrimLeftSpaces(w: string, x: string)
    requires AllSpace(w)
    ensures TrimLeft(w + x) == TrimLeft(x)
  {
    if w != [] {
      assert (w + x)[0] == w[0] && IsSpace(w[0]);
      assert (w + x)[1..] == w[1..] + x;
      TrimLeftSpaces(w[1..], x);
    } else {
      assert w + x == x;
    }
  }

  lemma {:induction false} TrimRightSpaces(x: string, w: string)
    requires AllSpace(w)
    ensures TrimRight(x + w) == TrimRight(x)
  {
    if w != [] {
      assert (x + w)[|x + w| - 1] == w[|w| - 1] && IsSpace(w[|w| - 1]);
      assert (x + w)[..|x + w| - 1] == x + w[..|w| - 1];
      TrimRightSpaces(x, w[..|w| - 1]);
    } else {
      assert x + w == x;
    }
  }

  lemma {:induction false} TrimLeftAppend(x: string, w: string)
    requires AllSpace(w)
    ensures TrimLeft(x + w) == if TrimLeft(x) == [] then [] else TrimLeft(x) + w
  {
    if x == [] {
      TrimLeftSpaces(w, []);
      assert w + [] == w;
    } else if IsSpace(x[0]) {
      assert (x + w)[1..] == x[1..] + w;
      TrimLeftAppend(x[1..], w);
    }
  }

  /** A field holding only an ideographic and a no-break space is blank, as it is to `strip()`. */
  lemma WideSpacesBlank()
    ensures Strip(['\U{3000}', '\U{00A0}']) == []
  {
    var blank := ['\U{3000}', '\U{00A0}'];
    assert blank[1..] == ['\U{00A0}'] && ['\U{00A0}'][1..] == [];
    assert TrimLeft(['\U{00A0}']) == [];
  }

  /** A trailing ideographic space after a full-width letter is stripped; the letter is kept. */
  lemma WideLetterKept()
    ensures Strip(['\U{FF41}', '\U{3000}']) == ['\U{FF41}']
  {
    var wide := ['\U{FF41}', '\U{3000}'];
    assert TrimLeft(wide) == wide;
    assert wide[..1] == ['\U{FF41}'];
  }

  /** Leading and trailing whitespace do not change what `strip` returns. */
  lemma StripAroundSpaces(w: string, x: string, v: string)
    requires AllSpace(w) && AllSpace(v)
    ensures Strip(w + x) == Strip(x) && Strip(x + v) == Strip(x)
  {
    TrimLeftSpaces(w, x);
    TrimLeftAppend(x, v);
    if TrimLeft(x) != [] {
      TrimRightSpaces(TrimLeft(x), v);
    }
  }

  lemma {:induction false} SplitNoSep(w: string, c: char)
    requires c !in w
    ensures SplitOn(w, c) == [w]
  {
    if w != [] {
      SplitNoSep(w[1..], c);
      assert w == [w[0]] + w[1..];
    }
  }

  lemma {:induction false} SplitPrepend(w: string, s: string, c: char)
    requires c !in w
    ensures SplitOn(w + s, c) == [w + SplitOn(s, c)[0]] + SplitOn(s, c)[1..]
  {
    if w == [] {
      assert w + s == s;
      var S := SplitOn(s, c);
      assert w + S[0] == S[0];
      assert S == [S[0]] + S[1..];
    } else {
      assert (w + s)[1..] == w[1..] + s;
      SplitPrepend(w[1..], s, c);
      assert [w[0]] + (w[1..] + SplitOn(s, c)[0]) == w + SplitOn(s, c)[0];
    }
  }

  lemma {:induction false} SplitAppend(s: string, w: string, c: char)
    requires c !in w
    ensures var S := SplitOn(s, c);
      SplitOn(s + w, c) == S[..|S| - 1] + [S[|S| - 1] + w]
  {
    if s == [] {
      assert s + w == w;
      SplitNoSep(w, c);
    } else {
      assert (s + w)[1..] == s[1..] + w;
      SplitAppend(s[1..], w, c);
      var R := SplitOn(s[1..], c);
      var S := SplitOn(s, c);
      if s[0] != c && |R| > 1 {
        assert S[..|S| - 1] == [[s[0]] + R[0]] + R[1..|R| - 1];
      }
    }
  }

  predicate SameStripped(a: seq<string>, b: seq<string>)
  {
    |a| == |b| && forall k :: 0 <= k < |a| ==> Strip(a[k]) == Strip(b[k])
  }

  lemma {:induction false} NonBlankSameStripped(a: seq<string>, b: seq<string>)
    requires SameStripped(a, b)
    ensures NonBlank(a) == NonBlank(b)
  {
    if a != [] {
      NonBlankSameStripped(a[1..], b[1..]);
    }
  }

  lemma AppendSpacesSameStripped(core: string, right: string, c: char)
    requires AllSpace(right) && c !in right
    ensures SameStripped(SplitOn(core + right, c), SplitOn(core, c))
  {
    var S := SplitOn(core, c);
    var A := SplitOn(core + right, c);
    SplitAppend(core, right, c);
    assert |A| == |S|;
    forall k | 0 <= k < |A|
      ensures Strip(A[k]) == Strip(S[k])
    {
      if k == |S| - 1 {
        StripAroundSpaces([], S[k], right);
      }
    }
  }

  lemma PrependSpacesSameStripped(left: string, t: string, c: char)
    requires AllSpace(left) && c !in left
    ensures SameStripped(SplitOn(left + t, c), SplitOn(t, c))
  {
    var T := SplitOn(t, c);
    var A := SplitOn(left + t, c);
    SplitPrepend(left, t, c);
    assert |A| == |T|;
    forall k | 0 <= k < |A|
      ensures Strip(A[k]) == Strip(T[k])
    {
      if k == 0 {
        StripAroundSpaces(left, T[0], []);
        assert T[0] + [] == T[0];
      }
    }
  }

  lemma SpacesExclude(w: string, c: char)
    requires AllSpace(w) && !IsSpace(c)
    ensures c !in w
  {
    forall k | 0 <= k < |w|
      ensures w[k] != c
    {
    }
  }

  lemma NonBlankIgnoresLeadingSpace(text: string, c: char)
    requires !IsSpace(c)
    ensures NonBlank(SplitOn(text, c)) == NonBlank(SplitOn(TrimLeft(text), c))
  {
    var t1 := TrimLeft(text);
    var left := text[..|text| - |t1|];
    assert text == left + t1 && AllSpace(left) by {
      assert forall k :: 0 <= k < |left| ==> left[k] == text[k];
    }
    SpacesExclude(left, c);
    PrependSpacesSameStripped(left, t1, c);
    NonBlankSameStripped(SplitOn(text, c), SplitOn(t1, c));
  }

  lemma NonBlankIgnoresTrailingSpace(text: string, c: char)
    requires !IsSpace(c)
    ensures NonBlank(SplitOn(text, c)) == NonBlank(SplitOn(TrimRight(text), c))
  {
    var core := TrimRight(text);
    assert AllSpace(text[|core|..]);
    NonBlankDropSpaces(text, |core|, c);
  }

  /** Whitespace after position `k` only pads the last field. */
  lemma NonBlankDropSpaces(text: string, k: nat, c: char)
    requires !IsSpace(c) && k <= |text| && AllSpace(text[k..])
    ensures NonBlank(SplitOn(text, c)) == NonBlank(SplitOn(text[..k], c))
  {
    var core, right := text[..k], text[k..];
    assert text == core + right;
    SpacesExclude(right, c);
    AppendSpacesSameStripped(core, right, c);
    NonBlankSameStripped(SplitOn(text, c), SplitOn(core, c));
  }

  /** Splitting before or after stripping the whole text gives the same non-blank fields. */
  lemma NonBlankIgnoresOuterSpace(text: string, c: char)
    requires !IsSpace(c)
    ensures NonBlank(SplitOn(text, c)) == NonBlank(SplitOn(Strip(text), c))
  {
    NonBlankIgnoresLeadingSpace(text, c);
    NonBlankIgnoresTrailingSpace(TrimLeft(text), c);
  }

  // ----- evaluation helpers for concrete texts -----

  lemma SplitCons(c: char, s: string, sep: char)
    ensures SplitOn([c] + s, sep) ==
      if c == sep then [""] + SplitOn(s, sep) else [[c] + SplitOn(s, sep)[0]] + SplitOn(s, sep)[1..]
  {
    assert ([c] + s)[1..] == s;
  }

  /** Text that neither starts nor ends with whitespace is its own `strip()`. */
  lemma StripUnpadded(s: string)
    requires s != [] && !IsSpace(s[0]) && !IsSpace(s[|s| - 1])
    ensures Strip(s) == s
  {
  }

  /** Fields that are already stripped and non-blank all survive. */
  lemma {:induction false} NonBlankKeepsStripped(pieces: seq<string>)
    requires forall k :: 0 <= k < |pieces| ==> pieces[k] != [] && Strip(pieces[k]) == pieces[k]
    ensures NonBlank(pieces) == pieces
  {
    if pieces != [] {
      NonBlankKeepsStripped(pieces[1..]);
    }
  }

  /** `int()` of a single decimal digit. */
  lemma ParseDigit(c: char)
    requires IsDigit(c)
    ensures ParseInt([c]) == Some(c as int - '0' as int)
  {
    StripUnpadded([c]);
    SignedDigit(c);
  }

  lemma SignedDigit(c: char)
    requires IsDigit(c)
    ensures ParseSigned([c]) == Some(c as int - '0' as int)
  {
    assert [c][..0] == [];
    assert DigitsValue([c]) == c as int - '0' as int;
  }

  /** `split(sep, 1)` cuts at the first separator. */
  lemma SplitOnceAt(a: string, sep: char, b: string)
    requires sep !in a
    ensures sep in a + [sep] + b
    ensures SplitOnce(a + [sep] + b, sep) == (a, b)
  {
    var s := a + [sep] + b;
    assert s[|a|] == sep;
    var r := SplitOnce(s, sep);
    var i := FirstIndex(s, sep);
    assert s[..|a|] == a && s[|a| + 1..] == b;
  }
}
