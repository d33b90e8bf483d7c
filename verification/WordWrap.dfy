/** Wrapping of descriptions in generated configuration files. */
module WordWrap {
  import opened Basics
  import opened Text

  const MAX_CHAR_PER_LINE := 66
  const MIN_CHAR := 20
  const NEWLINE := '\n'

  /** The index of the last character that is one of the delimiters, or -1. */
  function FindLastOf(s: string, delim: string): (i: int)
    ensures -1 <= i < |s|
    ensures i >= 0 ==> s[i] in delim
  {
    if s == "" then -1 else if s[|s| - 1] in delim then |s| - 1 else FindLastOf(s[..|s| - 1], delim)
  }

  /** How many characters the next line takes, and how many are used up. */
  function LineLength(s: string, width: nat, delim: string): (n: nat)
    requires |s| > width
    ensures n <= width
  {
    FindIsFirst(s, NEWLINE);
    if Find(s, NEWLINE) < width then Find(s, NEWLINE)
    else
      var d := FindLastOf(s[..width], delim);
      if d >= 0 then d + 1 else width
  }

  function Used(s: string, width: nat, delim: string): (n: nat)
    requires |s| > width
    ensures width > 0 ==> 0 < n <= |s|
  {
    FindIsFirst(s, NEWLINE);
    LineLength(s, width, delim) + (if Find(s, NEWLINE) < width then 1 else 0)
  }

  function Wrapped(s: string, width: nat, delim: string): string
    requires width > 0
  {
    if |s| <= width then s
    else s[..LineLength(s, width, delim)] + [NEWLINE] + Wrapped(s[Used(s, width, delim)..], width, delim)
  }

  /** Cuts the next line off: at a newline, else after the last delimiter that fits, else at the width. */
  method CutLine(s: string, width: nat, delim: string) returns (line: string, rest: string)
    requires |s| > width > 0
    ensures line == s[..LineLength(s, width, delim)] && rest == s[Used(s, width, delim)..]
  {
    var newline := Find(s, NEWLINE);
    var delimAt := FindLastOf(s[..width], delim);
    FindIsFirst(s, NEWLINE);
    if newline < width {
      line, rest := s[..newline], s[newline + 1..];
    } else if delimAt >= 0 {
      line, rest := s[..delimAt + 1], s[delimAt + 1..];
    } else {
      line, rest := s[..width], s[width..];
    }
  }

  method WordWrap(text: string, width: nat, delim: string) returns (out: string)
    requires width > 0
    ensures out == Wrapped(text, width, delim)
  {
    out := "";
    var s := text;
    while |s| > width
      invariant out + Wrapped(s, width, delim) == Wrapped(text, width, delim)
      decreases |s|
    {
      var line, rest := CutLine(s, width, delim);
      ghost var tail := Wrapped(rest, width, delim);
      assert out + (line + [NEWLINE] + tail) == out + line + [NEWLINE] + tail;
      out, s := out + line + [NEWLINE], rest;
    }
    out := out + s;
  }

  // ---- Lines ----

  function Lines(s: string): seq<string> {
    Split(s, {NEWLINE})
  }

  predicate LinesFit(s: string, width: nat) {
    forall i | 0 <= i < |Lines(s)| :: |Lines(s)[i]| <= width
  }

  lemma FirstLine(a: string, b: string)
    requires NEWLINE !in a
    ensures Lines(a + [NEWLINE] + b) == [a] + Lines(b)
  {
    SplitFirst(a, NEWLINE, b, {NEWLINE});
  }

  lemma {:induction false} LinesAreShort(s: string, i: nat)
    requires i < |Lines(s)|
    ensures |Lines(s)[i]| <= |s|
  {
    if s != "" {
      if s[0] == NEWLINE {
        if i > 0 {
          LinesAreShort(s[1..], i - 1);
        }
      } else {
        LinesAreShort(s[1..], i);
      }
    }
  }

  lemma CutLineHasNoNewline(s: string, width: nat, delim: string)
    requires |s| > width > 0
    ensures NEWLINE !in s[..LineLength(s, width, delim)]
  {
    FindIsFirst(s, NEWLINE);
    var n, f := LineLength(s, width, delim), Find(s, NEWLINE);
    assert n <= f;
    assert forall i | 0 <= i < n :: s[i] == s[..f][i] && s[..f][i] in s[..f];
  }

  /** Every line of the wrapped text fits the width. */
  lemma {:induction false} WrappedFits(s: string, width: nat, delim: string)
    requires width > 0
    ensures LinesFit(Wrapped(s, width, delim), width)
    decreases |s|
  {
    if |s| <= width {
      forall i | 0 <= i < |Lines(s)| ensures |Lines(s)[i]| <= width {
        LinesAreShort(s, i);
      }
    } else {
      var line, rest := s[..LineLength(s, width, delim)], s[Used(s, width, delim)..];
      CutLineHasNoNewline(s, width, delim);
      WrappedFits(rest, width, delim);
      FirstLine(line, Wrapped(rest, width, delim));
    }
  }

  // ---- Nothing but newlines is added, and nothing is lost ----

  /** The second text is the first with newlines inserted. */
  ghost predicate Inserted(s: string, t: string) {
    if t == "" then s == ""
    else (s != "" && s[0] == t[0] && Inserted(s[1..], t[1..])) || (t[0] == NEWLINE && Inserted(s, t[1..]))
  }

  lemma {:induction false} InsertedAfter(a: string, s: string, t: string)
    requires Inserted(s, t)
    ensures Inserted(a + s, a + t)
  {
    if a == "" {
      assert a + s == s && a + t == t;
    } else {
      InsertedAfter(a[1..], s, t);
      assert (a + s)[1..] == a[1..] + s && (a + t)[1..] == a[1..] + t;
    }
  }

  lemma {:induction false} InsertedSelf(s: string)
    ensures Inserted(s, s)
  {
    if s != "" {
      InsertedSelf(s[1..]);
    }
  }

  lemma InsertedAtBreak(line: string, rest: string, tail: string)
    requires Inserted(rest, tail)
    ensures Inserted(line + rest, line + [NEWLINE] + tail)
    ensures Inserted(line + [NEWLINE] + rest, line + [NEWLINE] + tail)
  {
    var t := [NEWLINE] + tail;
    assert t[1..] == tail;
    InsertedAfter(line, rest, t);
    assert line + t == line + [NEWLINE] + tail;
    InsertedAfter(line + [NEWLINE], rest, tail);
  }

  /** What is cut off and what is left make up the text again, with the newline in between if one was used up. */
  lemma CutIsWhole(s: string, width: nat, delim: string)
    requires |s| > width > 0
    ensures var n, u := LineLength(s, width, delim), Used(s, width, delim);
      s == s[..n] + s[u..] || s == s[..n] + [NEWLINE] + s[u..]
  {
    FindIsFirst(s, NEWLINE);
    var n := LineLength(s, width, delim);
    if Find(s, NEWLINE) < width {
      assert s[n] == NEWLINE && s == s[..n] + [s[n]] + s[n + 1..];
    } else {
      assert s == s[..n] + s[n..];
    }
  }

  /** Wrapping only inserts newlines: all characters stay, in order, and every newline stays a line break. */
  lemma {:induction false} WrappedOnlyInserts(s: string, width: nat, delim: string)
    requires width > 0
    ensures Inserted(s, Wrapped(s, width, delim))
    decreases |s|
  {
    if |s| <= width {
      InsertedSelf(s);
    } else {
      var line, rest := s[..LineLength(s, width, delim)], s[Used(s, width, delim)..];
      WrappedOnlyInserts(rest, width, delim);
      InsertedAtBreak(line, rest, Wrapped(rest, width, delim));
      CutIsWhole(s, width, delim);
    }
  }

  function WithoutNewlines(s: string): string {
    if s == "" then "" else (if s[0] == NEWLINE then "" else [s[0]]) + WithoutNewlines(s[1..])
  }

  lemma {:induction false} InsertedKeepsText(s: string, t: string)
    requires Inserted(s, t)
    ensures WithoutNewlines(s) == WithoutNewlines(t) && |s| <= |t|
    decreases |t|
  {
    if t != "" {
      if s != "" && s[0] == t[0] && Inserted(s[1..], t[1..]) {
        InsertedKeepsText(s[1..], t[1..]);
      } else {
        InsertedKeepsText(s, t[1..]);
      }
    }
  }

  lemma WrappedKeepsText(s: string, width: nat, delim: string)
    requires width > 0
    ensures WithoutNewlines(Wrapped(s, width, delim)) == WithoutNewlines(s)
    ensures |Wrapped(s, width, delim)| >= |s|
  {
    WrappedOnlyInserts(s, width, delim);
    InsertedKeepsText(s, Wrapped(s, width, delim));
  }

  // ---- When wrapping changes nothing ----

  predicate LineStart(s: string, i: nat)
    requires i <= |s|
  {
    i == 0 || s[i - 1] == NEWLINE
  }

  /** Wherever more than a width of text is left, the line ends before the width is reached. */
  ghost predicate EndsInTime(s: string, width: nat) {
    forall i: nat | i + width < |s| && LineStart(s, i) :: NEWLINE in s[i..i + width]
  }

  lemma EndsInTimeBehind(s: string, n: nat, width: nat)
    requires n < |s| && s[n] == NEWLINE && n < width && NEWLINE !in s[..n]
    ensures EndsInTime(s, width) <==> EndsInTime(s[n + 1..], width)
  {
    var rest := s[n + 1..];
    forall i: nat | i + width < |rest|
      ensures LineStart(s, n + 1 + i) == LineStart(rest, i) && s[n + 1 + i..n + 1 + i + width] == rest[i..i + width]
    {
    }
    assert forall k | 0 <= k < n :: s[k] == s[..n][k] && s[..n][k] in s[..n];
    if EndsInTime(rest, width) {
      forall i: nat | i + width < |s| && LineStart(s, i)
        ensures NEWLINE in s[i..i + width]
      {
        if i <= n {
          assert s[i..i + width][n - i] == NEWLINE;
        } else {
          var j := i - n - 1;
          assert LineStart(rest, j) && s[i..i + width] == rest[j..j + width];
        }
      }
    }
    if EndsInTime(s, width) {
      forall i: nat | i + width < |rest| && LineStart(rest, i)
        ensures NEWLINE in rest[i..i + width]
      {
        assert LineStart(s, n + 1 + i) && s[n + 1 + i..n + 1 + i + width] == rest[i..i + width];
      }
    }
  }

  lemma SameTail(a: string, b: string, c: string)
    ensures a + b == a + c <==> b == c
  {
    assert (a + b)[|a|..] == b && (a + c)[|a|..] == c;
  }

  lemma BreakChangesLength(s: string, width: nat, delim: string)
    requires |s| > width > 0 && width <= Find(s, NEWLINE)
    ensures |Wrapped(s, width, delim)| > |s| && !EndsInTime(s, width)
  {
    var rest := s[Used(s, width, delim)..];
    WrappedKeepsText(rest, width, delim);
    FindIsFirst(s, NEWLINE);
    var f := Find(s, NEWLINE);
    assert forall i | 0 <= i < width :: s[i] == s[..f][i] && s[..f][i] in s[..f];
    assert LineStart(s, 0) && NEWLINE !in s[0..width];
  }

  /** At a newline within the width the text is cut there. */
  lemma CutAtNewline(s: string, n: nat, width: nat, delim: string)
    requires n < width < |s| && s[n] == NEWLINE && NEWLINE !in s[..n]
    ensures Wrapped(s, width, delim) == s[..n] + [NEWLINE] + Wrapped(s[n + 1..], width, delim)
    ensures Wrapped(s, width, delim) == s <==> Wrapped(s[n + 1..], width, delim) == s[n + 1..]
  {
    FirstIsFound(s, NEWLINE, n);
    assert LineLength(s, width, delim) == n && Used(s, width, delim) == n + 1;
    assert s == s[..n] + [NEWLINE] + s[n + 1..];
    SameTail(s[..n] + [NEWLINE], Wrapped(s[n + 1..], width, delim), s[n + 1..]);
  }

  /**
   Wrapping leaves a text alone exactly when its lines end in time: a line of just the width
   already gets a second break.
   */
  lemma {:induction false} UnchangedIff(s: string, width: nat, delim: string)
    requires width > 0
    ensures Wrapped(s, width, delim) == s <==> EndsInTime(s, width)
    decreases |s|
  {
    if |s| > width {
      FindIsFirst(s, NEWLINE);
      var n := Find(s, NEWLINE);
      if n < width {
        UnchangedIff(s[n + 1..], width, delim);
        EndsInTimeBehind(s, n, width);
        CutAtNewline(s, n, width, delim);
      } else {
        BreakChangesLength(s, width, delim);
      }
    }
  }

  // ---- When wrapping twice is wrapping once ----

  /** No cut of the text gives a line as long as the width. */
  predicate NeverFull(s: string, width: nat, delim: string)
    requires width > 0
    decreases |s|
  {
    |s| <= width || (LineLength(s, width, delim) < width && NeverFull(s[Used(s, width, delim)..], width, delim))
  }

  /** Wrapping twice is the same as wrapping once exactly when no line is cut at the full width. */
  lemma {:induction false} IdempotentIff(s: string, width: nat, delim: string)
    requires width > 0
    ensures Wrapped(Wrapped(s, width, delim), width, delim) == Wrapped(s, width, delim) <==> NeverFull(s, width, delim)
    decreases |s|
  {
    if |s| > width {
      var n, rest := LineLength(s, width, delim), s[Used(s, width, delim)..];
      var tail := Wrapped(rest, width, delim);
      var t := s[..n] + [NEWLINE] + tail;
      IdempotentIff(rest, width, delim);
      CutLineHasNoNewline(s, width, delim);
      WrappedKeepsText(s, width, delim);
      assert t == Wrapped(s, width, delim) && t[n] == NEWLINE && t[..n] == s[..n] && t[n + 1..] == tail;
      if n < width {
        CutAtNewline(t, n, width, delim);
      } else {
        FirstIsFound(t, NEWLINE, n);
        BreakChangesLength(t, width, delim);
      }
    }
  }

  /** A word longer than the width is cut twice when it is wrapped twice. */
  lemma NotIdempotent()
    ensures Wrapped("abc", 2, " ") == "ab\nc" && Wrapped("ab\nc", 2, " ") != "ab\nc"
  {
    var s, t := "abc", "ab\nc";
    assert Find(s, NEWLINE) == 3 && FindLastOf(s[..2], " ") == -1 by {
      FindIsFirst(s, NEWLINE);
      assert s[..2] == "ab" && "ab"[..1] == "a" && "a"[..0] == "";
    }
    assert s[..2] == "ab" && s[2..] == "c";
    IdempotentIff(s, 2, " ");
  }

  // ---- Descriptions ----

  /** Every newline is followed by the prefix. */
  function Indented(t: string, prefix: string): string {
    if t == "" then ""
    else (if t[0] == NEWLINE then [NEWLINE] + prefix else [t[0]]) + Indented(t[1..], prefix)
  }

  function Spaces(n: nat): string {
    seq(n, i => ' ')
  }

  function Width(numBlanks: nat): nat {
    if MAX_CHAR_PER_LINE - numBlanks > MIN_CHAR then MAX_CHAR_PER_LINE - numBlanks else MIN_CHAR
  }

  /** Too little room is left beside the field, so the comment starts on a line of its own. */
  predicate Narrow(numBlanks: nat) {
    MIN_CHAR > MAX_CHAR_PER_LINE - numBlanks
  }

  /** Wraps a comment and aligns its lines. The two characters that lead a comment are dropped where it is moved. */
  function WrappedDescription(description: string, numBlanks: nat): string
    requires Narrow(numBlanks) ==> |description| >= 2
  {
    WrappedKeepsText(description, Width(numBlanks), " ");
    var text := Wrapped(description, Width(numBlanks), " ");
    if Narrow(numBlanks)
    then Indented([NEWLINE] + text[2..], Spaces(MAX_CHAR_PER_LINE - MIN_CHAR) + "# ")
    else Indented(text, Spaces(numBlanks) + "# ")
  }

  /** Follows every newline by the prefix. */
  method Indent(text: string, prefix: string) returns (out: string)
    ensures out == Indented(text, prefix)
  {
    out := "";
    for i := 0 to |text|
      invariant out + Indented(text[i..], prefix) == Indented(text, prefix)
    {
      ghost var rest := Indented(text[i + 1..], prefix);
      assert text[i..][1..] == text[i + 1..];
      var piece := if text[i] == NEWLINE then [NEWLINE] + prefix else [text[i]];
      assert out + (piece + rest) == (out + piece) + rest;
      out := out + piece;
    }
    assert text[|text|..] == "" && out + "" == out;
  }

  /** A comment that has to be moved and is too short for that makes the call fail. */
  method WrapDescription(description: string, blanks: nat) returns (out: Option<string>)
    ensures out.None? <==> Narrow(blanks) && |description| < 2
    ensures out.Some? ==> out.value == WrappedDescription(description, blanks)
  {
    var numBlanks := blanks;
    WrappedKeepsText(description, Width(blanks), " ");
    var text := WordWrap(description, Width(blanks), " ");
    if Narrow(blanks) {
      if |text| < 2 {
        return None;
      }
      ShortIsKept(description, Width(blanks), " ");
      text := [NEWLINE] + text[2..];
      numBlanks := MAX_CHAR_PER_LINE - MIN_CHAR;
    }
    var indented := Indent(text, Spaces(numBlanks) + "# ");
    out := Some(indented);
  }

  /** A text within the width is not touched. */
  lemma ShortIsKept(s: string, width: nat, delim: string)
    requires width > 0
    ensures |s| <= width ==> Wrapped(s, width, delim) == s
  {
  }

  /** Indenting puts the prefix before every line but the first. */
  lemma {:induction false} IndentedLines(t: string, prefix: string)
    requires NEWLINE !in prefix
    ensures |Lines(Indented(t, prefix))| == |Lines(t)| && Lines(Indented(t, prefix))[0] == Lines(t)[0]
    ensures forall i | 0 < i < |Lines(t)| :: Lines(Indented(t, prefix))[i] == prefix + Lines(t)[i]
  {
    if t != "" {
      var u := Indented(t[1..], prefix);
      IndentedLines(t[1..], prefix);
      if t[0] == NEWLINE {
        PrefixedFirstLine(prefix, u);
        assert Indented(t, prefix) == "" + [NEWLINE] + (prefix + u);
        FirstLine("", prefix + u);
      } else {
        assert Indented(t, prefix)[1..] == u;
      }
    }
  }

  lemma {:induction false} PrefixedFirstLine(prefix: string, u: string)
    requires NEWLINE !in prefix
    ensures Lines(prefix + u) == [prefix + Lines(u)[0]] + Lines(u)[1..]
  {
    if prefix == "" {
      assert prefix + u == u && "" + Lines(u)[0] == Lines(u)[0];
    } else {
      assert (prefix + u)[1..] == prefix[1..] + u && prefix[0] in prefix;
      PrefixedFirstLine(prefix[1..], u);
      assert [prefix[0]] + (prefix[1..] + Lines(u)[0]) == prefix + Lines(u)[0];
    }
  }

  lemma {:induction false} DroppedTwoFits(s: string, width: nat)
    requires |s| >= 2 && LinesFit(s, width)
    ensures LinesFit(s[2..], width)
  {
    DroppedOneFits(s, width);
    DroppedOneFits(s[1..], width);
    assert s[1..][1..] == s[2..];
  }

  lemma DroppedOneFits(s: string, width: nat)
    requires s != "" && LinesFit(s, width)
    ensures LinesFit(s[1..], width)
  {
    var lines, rest := Lines(s), Lines(s[1..]);
    if s[0] == NEWLINE {
      assert forall i | 0 <= i < |rest| :: rest[i] == lines[i + 1];
    } else {
      assert lines[0] == [s[0]] + rest[0] && forall i | 0 < i < |rest| :: rest[i] == lines[i];
    }
  }

  lemma IndentedFits(t: string, prefix: string, width: nat)
    requires NEWLINE !in prefix && LinesFit(t, width)
    ensures LinesFit(Indented(t, prefix), width + |prefix|)
  {
    IndentedLines(t, prefix);
  }

  /** No line of a wrapped description is longer than two more than the line limit, whatever the indentation. */
  lemma DescriptionFits(description: string, numBlanks: nat)
    requires Narrow(numBlanks) ==> |description| >= 2
    ensures LinesFit(WrappedDescription(description, numBlanks), MAX_CHAR_PER_LINE + 2)
  {
    var width := Width(numBlanks);
    var text := Wrapped(description, width, " ");
    WrappedFits(description, width, " ");
    WrappedKeepsText(description, width, " ");
    if Narrow(numBlanks) {
      DroppedTwoFits(text, width);
      var broken := [NEWLINE] + text[2..];
      assert broken == "" + [NEWLINE] + text[2..];
      FirstLine("", text[2..]);
      IndentedFits(broken, Spaces(MAX_CHAR_PER_LINE - MIN_CHAR) + "# ", width);
    } else {
      IndentedFits(text, Spaces(numBlanks) + "# ", width);
    }
  }

  // ---- When descriptions stay within the limit ----

  /**
   With this many characters of the wrapped text dropped, every line cut off the rest, and every
   line of what remains at the end, is within the limit.
   */
  predicate CutsFit(s: string, drop: nat, width: nat, limit: nat, delim: string)
    requires width > 0 && drop <= |s|
    decreases |s|
  {
    if |s| <= width then LinesFit(s[drop..], limit)
    else
      var n, u := LineLength(s, width, delim), Used(s, width, delim);
      if drop <= n then n - drop <= limit && CutsFit(s[u..], 0, width, limit, delim)
      else CutsFit(s[u..], drop - n - 1, width, limit, delim)
  }

  lemma {:induction false} CutsFitIff(s: string, drop: nat, width: nat, limit: nat, delim: string)
    requires width > 0 && drop <= |s|
    ensures drop <= |Wrapped(s, width, delim)|
    ensures LinesFit(Wrapped(s, width, delim)[drop..], limit) <==> CutsFit(s, drop, width, limit, delim)
    decreases |s|
  {
    WrappedKeepsText(s, width, delim);
    if |s| > width {
      var n, rest := LineLength(s, width, delim), s[Used(s, width, delim)..];
      var tail := Wrapped(rest, width, delim);
      var t := Wrapped(s, width, delim);
      if drop <= n {
        CutsFitIff(rest, 0, width, limit, delim);
        CutLineHasNoNewline(s, width, delim);
        assert tail[0..] == tail && t[drop..] == s[drop..n] + [NEWLINE] + tail;
        assert forall c | c in s[drop..n] :: c in s[..n];
        FirstLineFits(s[drop..n], tail, limit);
      } else {
        CutsFitIff(rest, drop - n - 1, width, limit, delim);
        assert t[drop..] == tail[drop - n - 1..];
      }
    }
  }

  lemma FirstLineFits(a: string, b: string, limit: nat)
    requires NEWLINE !in a
    ensures LinesFit(a + [NEWLINE] + b, limit) <==> |a| <= limit && LinesFit(b, limit)
  {
    FirstLine(a, b);
    var lines := [a] + Lines(b);
    assert lines[0] == a && forall i | 0 <= i < |Lines(b)| :: lines[i + 1] == Lines(b)[i];
  }

  predicate LaterLinesFit(s: string, limit: nat) {
    forall i | 0 < i < |Lines(s)| :: |Lines(s)[i]| <= limit
  }

  /** The cuts leave room for the comment sign before every line that gets one. */
  predicate LeavesRoom(description: string, numBlanks: nat)
    requires Narrow(numBlanks) ==> |description| >= 2
  {
    var width := Width(numBlanks);
    if Narrow(numBlanks) then CutsFit(description, 2, width, width - 2, " ")
    else if |description| <= width then LaterLinesFit(description, width - 2)
    else CutsFit(description[Used(description, width, " ")..], 0, width, width - 2, " ")
  }

  lemma LaterLinesOfWrapped(s: string, width: nat, limit: nat, delim: string)
    requires |s| > width > 0
    ensures LaterLinesFit(Wrapped(s, width, delim), limit)
       <==> CutsFit(s[Used(s, width, delim)..], 0, width, limit, delim)
  {
    var line, rest := s[..LineLength(s, width, delim)], s[Used(s, width, delim)..];
    var tail := Wrapped(rest, width, delim);
    CutLineHasNoNewline(s, width, delim);
    FirstLine(line, tail);
    CutsFitIff(rest, 0, width, limit, delim);
    assert tail[0..] == tail;
    var lines := [line] + Lines(tail);
    assert forall i | 0 <= i < |Lines(tail)| :: lines[i + 1] == Lines(tail)[i];
    assert forall i | 0 < i < |lines| :: lines[i] == Lines(tail)[i - 1];
  }

  /** Indenting keeps to a limit exactly when the first line does, and all others with the prefix. */
  lemma IndentedFitsIff(t: string, prefix: string, limit: nat)
    requires NEWLINE !in prefix && |Lines(t)[0]| <= limit + |prefix|
    ensures LinesFit(Indented(t, prefix), limit + |prefix|) <==> LaterLinesFit(t, limit)
  {
    IndentedLines(t, prefix);
    var lines := Lines(Indented(t, prefix));
    assert forall i | 0 < i < |lines| :: |lines[i]| == |prefix| + |Lines(t)[i]|;
  }

  /** A description stays within the named limit exactly when its cuts leave room for the comment sign. */
  lemma WithinLimitIff(description: string, numBlanks: nat)
    requires Narrow(numBlanks) ==> |description| >= 2
    ensures LinesFit(WrappedDescription(description, numBlanks), MAX_CHAR_PER_LINE)
       <==> LeavesRoom(description, numBlanks)
  {
    var width := Width(numBlanks);
    var text := Wrapped(description, width, " ");
    WrappedFits(description, width, " ");
    WrappedKeepsText(description, width, " ");
    if Narrow(numBlanks) {
      MovedWithinLimitIff(text[2..], Spaces(MAX_CHAR_PER_LINE - MIN_CHAR) + "# ");
      CutsFitIff(description, 2, width, width - 2, " ");
    } else {
      IndentedFitsIff(text, Spaces(numBlanks) + "# ", width - 2);
      if |description| > width {
        LaterLinesOfWrapped(description, width, width - 2, " ");
      }
    }
  }

  lemma MovedWithinLimitIff(t: string, prefix: string)
    requires NEWLINE !in prefix && |prefix| == 48
    ensures LinesFit(Indented([NEWLINE] + t, prefix), MAX_CHAR_PER_LINE) <==> LinesFit(t, 18)
  {
    assert [NEWLINE] + t == "" + [NEWLINE] + t;
    FirstLine("", t);
    var lines := [""] + Lines(t);
    assert lines[0] == "" && forall i | 0 <= i < |Lines(t)| :: lines[i + 1] == Lines(t)[i];
    assert forall i | 0 < i < |lines| :: lines[i] == Lines(t)[i - 1];
    IndentedFitsIff([NEWLINE] + t, prefix, 18);
  }

  // ---- The longest lines ----

  function Word(n: nat): string {
    seq(n, i => 'a')
  }

  lemma WordIsCut(width: nat)
    requires width > 0
    ensures Wrapped(Word(2 * width), width, " ") == Word(width) + [NEWLINE] + Word(width)
  {
    var s := Word(2 * width);
    FindIsFirst(s, NEWLINE);
    assert NEWLINE !in s && s[..width] == Word(width) == s[width..];
    assert FindLastOf(s[..width], " ") == -1;
    assert LineLength(s, width, " ") == width == Used(s, width, " ");
  }

  /** Whatever the indentation, some description has a line of two more characters than the limit. */
  lemma LimitIsExceeded(numBlanks: nat)
    ensures var d := Word(2 * Width(numBlanks));
      && |d| >= 2
      && var lines := Lines(WrappedDescription(d, numBlanks));
         |lines[|lines| - 1]| == MAX_CHAR_PER_LINE + 2
  {
    var width := Width(numBlanks);
    var w := Word(width);
    WordIsCut(width);
    assert NEWLINE !in w && w + "" == w;
    var text := w + [NEWLINE] + w;
    FirstLine(w, w);
    OneLine(w);
    if Narrow(numBlanks) {
      var prefix := Spaces(MAX_CHAR_PER_LINE - MIN_CHAR) + "# ";
      assert NEWLINE !in w[2..] && text[2..] == w[2..] + [NEWLINE] + w;
      FirstLine(w[2..], w);
      assert [NEWLINE] + text[2..] == "" + [NEWLINE] + text[2..];
      FirstLine("", text[2..]);
      IndentedLines([NEWLINE] + text[2..], prefix);
      assert Lines([NEWLINE] + text[2..])[2] == w;
    } else {
      IndentedLines(text, Spaces(numBlanks) + "# ");
      assert Lines(text)[1] == w;
    }
  }

  lemma OneLine(s: string)
    requires NEWLINE !in s
    ensures Lines(s) == [s]
  {
    SplitNone(s, {NEWLINE});
  }
}
