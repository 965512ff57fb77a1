/**
 * `split_dnd_paths`: the drag-and-drop library hands over the dropped paths
 * as one string, a path with spaces wrapped in braces (`{C:/a b.pdf} {C:/c.pdf}`).
 * The tokenizer is a character-level state machine over a buffer, an
 * in-braces flag and the result list.
 */
module DropPaths {
  import opened Seqs
  import opened Text

  /** The tokenizer's state: the paths found so far, the current buffer, and whether a `{` is open. */
  datatype Scan = Scan(result: seq<string>, buffer: string, inBraces: bool)

  const Start: Scan := Scan([], "", false)

  /** `result`, with `buffer` appended when it is not empty. */
  function Flushed(result: seq<string>, buffer: string): (r: seq<string>)
    ensures buffer == [] ==> r == result
    ensures buffer != [] ==> r == result + [buffer]
  {
    if buffer != [] then result + [buffer] else result
  }

  /** One character: `{` opens and drops the buffer, `}` closes and emits, a space outside braces emits, anything else is buffered. */
  function Step(s: Scan, c: char): Scan
  {
    if c == '{' then Scan(s.result, "", true)
    else if c == '}' then Scan(Flushed(s.result, s.buffer), "", false)
    else if c == ' ' && !s.inBraces then Scan(Flushed(s.result, s.buffer), "", s.inBraces)
    else Scan(s.result, s.buffer + [c], s.inBraces)
  }

  predicate NoEmpty(paths: seq<string>)
  {
    forall k :: 0 <= k < |paths| ==> paths[k] != []
  }

  /** The state after every character of `chars`, from `s`; no step ever emits an empty path. */
  function Run(s: Scan, chars: string): (r: Scan)
    ensures NoEmpty(s.result) ==> NoEmpty(r.result)
  {
    if chars == [] then s else Step(Run(s, chars[..|chars| - 1]), chars[|chars| - 1])
  }

  /** The paths of a drop string: the state machine over every character, then a non-empty buffer emitted. */
  function Tokens(raw: string): (r: seq<string>)
    ensures NoEmpty(r)
  {
    var s := Run(Start, raw);
    Flushed(s.result, s.buffer)
  }

  /** The character loop, which is the whole of the older application's `split_dnd_paths`. */
  method ScanChars(raw: string) returns (result: seq<string>)
    ensures result == Tokens(raw)
  {
    result := [];
    var buffer := "";
    var inBraces := false;
    for i := 0 to |raw|
      invariant Run(Start, raw[..i]) == Scan(result, buffer, inBraces)
    {
      assert raw[..i + 1][..i] == raw[..i];
      var c := raw[i];
      if c == '{' {
        inBraces := true;
        buffer := "";
      } else if c == '}' {
        inBraces := false;
        if buffer != [] {
          result := result + [buffer];
        }
        buffer := "";
      } else if c == ' ' && !inBraces {
        if buffer != [] {
          result := result + [buffer];
        }
        buffer := "";
      } else {
        buffer := buffer + [c];
      }
    }
    assert raw[..|raw|] == raw;
    if buffer != [] {
      result := result + [buffer];
    }
  }

  /** The later `split_dnd_paths`: an empty string answers `[]` at once, otherwise the same loop. */
  method SplitDndPaths(raw: string) returns (result: seq<string>)
    ensures result == Tokens(raw)
    ensures raw == [] ==> result == []
  {
    if raw == [] {
      return [];
    }
    result := ScanChars(raw);
  }

  /** Running over two pieces is running over the first, then the second. */
  lemma {:induction false} RunAppend(s: Scan, a: string, b: string)
    ensures Run(s, a + b) == Run(Run(s, a), b)
    decreases |b|
  {
    if b == [] {
      assert a + b == a;
    } else {
      RunAppend(s, a, b[..|b| - 1]);
      assert (a + b)[..|a + b| - 1] == a + b[..|b| - 1];
    }
  }

  predicate BraceFree(t: string)
  {
    '{' !in t && '}' !in t
  }

  /** Inside braces every character but a brace, spaces included, goes into the current path. */
  lemma {:induction false} InsideBraces(result: seq<string>, buffer: string, p: string)
    requires BraceFree(p)
    ensures Run(Scan(result, buffer, true), p) == Scan(result, buffer + p, true)
  {
    if p != [] {
      var init := p[..|p| - 1];
      assert BraceFree(init) by {
        assert forall c :: c in init ==> c in p;
      }
      InsideBraces(result, buffer, init);
      assert buffer + init + [p[|p| - 1]] == buffer + p;
    }
  }

  /** A path wrapped in braces, as the drag-and-drop library sends a path with spaces. */
  function InBraces(p: string): string
  {
    ['{'] + p + ['}']
  }

  /** `{p}` emits exactly `p`, whatever was buffered before the brace. */
  lemma BracedPath(s: Scan, p: string)
    requires p != [] && BraceFree(p)
    ensures Run(s, InBraces(p)) == Scan(s.result + [p], "", false)
  {
    RunAppend(s, "{", p + "}");
    assert Run(s, "{") == Scan(s.result, "", true) by {
      assert "{"[..0] == [];
    }
    RunAppend(Scan(s.result, "", true), p, "}");
    InsideBraces(s.result, "", p);
    assert "" + p == p;
    assert InBraces(p) == "{" + (p + "}");
    assert "}"[..0] == [];
  }

  /** The drop string for a list of paths: each in braces, separated by single spaces. */
  function Braced(paths: seq<string>): string
  {
    if paths == [] then ""
    else if |paths| == 1 then InBraces(paths[0])
    else Braced(paths[..|paths| - 1]) + [' '] + InBraces(paths[|paths| - 1])
  }

  /** Paths a drop string can carry in braces: none empty, none holding a brace. */
  predicate Droppable(paths: seq<string>)
  {
    forall k :: 0 <= k < |paths| ==> paths[k] != [] && BraceFree(paths[k])
  }

  /** The state machine reads the braced drop string back into the same paths. */
  lemma {:induction false} BracedRun(paths: seq<string>)
    requires Droppable(paths)
    ensures Run(Start, Braced(paths)) == Scan(paths, "", false)
  {
    if |paths| == 1 {
      BracedPath(Start, paths[0]);
    } else if |paths| > 1 {
      var init := paths[..|paths| - 1];
      var last := paths[|paths| - 1];
      assert Droppable(init) by {
        assert forall k :: 0 <= k < |init| ==> init[k] == paths[k];
      }
      BracedRun(init);
      BracedStep(Braced(init), init, last);
      assert init + [last] == paths;
    }
  }

  /** Round trip: non-empty paths without braces, braced and space-separated, come back as the same list. */
  lemma BracedRoundTrip(paths: seq<string>)
    requires Droppable(paths)
    ensures Tokens(Braced(paths)) == paths
  {
    BracedRun(paths);
  }

  /** After the paths so far, a space and one more braced path add that path. */
  lemma BracedStep(prefix: string, init: seq<string>, last: string)
    requires Run(Start, prefix) == Scan(init, "", false)
    requires last != [] && BraceFree(last)
    ensures Run(Start, prefix + [' '] + InBraces(last)) == Scan(init + [last], "", false)
  {
    var sp := prefix + [' '];
    assert sp[..|sp| - 1] == prefix;
    assert Run(Start, sp) == Scan(init, "", false);
    RunAppend(Start, sp, InBraces(last));
    BracedPath(Scan(init, "", false), last);
  }

  /** The example of the function's documentation. */
  lemma DropExample()
    ensures Tokens("{C:/a b.pdf} {C:/c.pdf}") == ["C:/a b.pdf", "C:/c.pdf"]
  {
    var paths := ["C:/a b.pdf", "C:/c.pdf"];
    assert paths[..1] == ["C:/a b.pdf"];
    assert Braced(paths) == "{C:/a b.pdf} {C:/c.pdf}";
    BracedRoundTrip(paths);
  }

  function IsNonEmpty(t: string): bool
  {
    t != []
  }

  /** `s.split(sep)` with the last piece appended to: a separator starts a new, empty piece. */
  lemma {:induction false} SplitAppendSep(s: string, sep: char)
    ensures SplitOn(s + [sep], sep) == SplitOn(s, sep) + [""]
  {
    if s == [] {
      assert s + [sep] == [sep];
      assert SplitOn([sep][1..], sep) == [""];
    } else {
      assert (s + [sep])[1..] == s[1..] + [sep];
      SplitAppendSep(s[1..], sep);
    }
  }

  /** Without braces the state keeps the finished non-empty pieces and buffers the piece after the last space. */
  predicate UnbracedState(raw: string)
  {
    var S := SplitOn(raw, ' ');
    Run(Start, raw) == Scan(Keep(S[..|S| - 1], IsNonEmpty), S[|S| - 1], false)
  }

  /** A space outside braces closes the buffered piece. */
  lemma UnbracedSpace(init: string)
    requires UnbracedState(init)
    ensures UnbracedState(init + [' '])
  {
    var I := SplitOn(init, ' ');
    var n := |I|;
    var kept := Keep(I[..n - 1], IsNonEmpty);
    var raw := init + [' '];
    assert raw[..|raw| - 1] == init;
    assert Run(Start, raw) == Scan(Flushed(kept, I[n - 1]), "", false);
    assert Keep(I, IsNonEmpty) == Flushed(kept, I[n - 1]);
    SplitAppendSep(init, ' ');
    var S := I + [""];
    assert S[..|S| - 1] == I;
  }

  /** Any other character outside braces extends the buffered piece. */
  lemma UnbracedChar(init: string, c: char)
    requires UnbracedState(init) && c != ' ' && c != '{' && c != '}'
    ensures UnbracedState(init + [c])
  {
    SplitAppend(init, [c], ' ');
    assert (init + [c])[..|init|] == init;
  }

  lemma {:induction false} UnbracedRun(raw: string)
    requires BraceFree(raw)
    ensures UnbracedState(raw)
  {
    if raw == [] {
      assert SplitOn(raw, ' ') == [""];
    } else {
      var init := raw[..|raw| - 1];
      var c := raw[|raw| - 1];
      assert BraceFree(init) by {
        assert forall x :: x in init ==> x in raw;
      }
      assert raw == init + [c];
      UnbracedRun(init);
      if c == ' ' {
        UnbracedSpace(init);
      } else {
        UnbracedChar(init, c);
      }
    }
  }

  /** Without braces the paths are the non-empty pieces between single spaces: `[t for t in raw.split(" ") if t]`. */
  lemma UnbracedTokens(raw: string)
    requires BraceFree(raw)
    ensures Tokens(raw) == Keep(SplitOn(raw, ' '), IsNonEmpty)
  {
    UnbracedRun(raw);
    var S := SplitOn(raw, ' ');
    var n := |S|;
    var kept := Keep(S[..n - 1], IsNonEmpty);
    assert Tokens(raw) == Flushed(kept, S[n - 1]);
    assert Keep(S, IsNonEmpty) == Flushed(kept, S[n - 1]);
  }

  /** An opening brace drops whatever was being collected since the last space: only the braced path follows the pieces before it. */
  lemma BraceDropsBuffer(w: string, p: string)
    requires BraceFree(w) && p != [] && BraceFree(p)
    ensures var S := SplitOn(w, ' ');
      Tokens(w + InBraces(p)) == Keep(S[..|S| - 1], IsNonEmpty) + [p]
  {
    UnbracedRun(w);
    RunAppend(Start, w, InBraces(p));
    BracedPath(Run(Start, w), p);
  }
}
