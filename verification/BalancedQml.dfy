/** The bracket check of the bottom hub's regression script: a stack matcher that skips quoted text. */
module BalancedQml {
  import opened Wrappers

  // ---- Well-bracketed words ----

  predicate IsOpen(c: char) { c == '{' || c == '(' || c == '[' }

  predicate IsClose(c: char) { c == '}' || c == ')' || c == ']' }

  predicate IsBracket(c: char) { IsOpen(c) || IsClose(c) }

  function Closing(c: char): char
    requires IsOpen(c)
  {
    if c == '{' then '}' else if c == '(' then ')' else ']'
  }

  /** The three-bracket Dyck language: nothing, or a bracketed word followed by a word. */
  ghost predicate Dyck(w: string)
    decreases |w|
  {
    w == [] || exists k: nat :: BracketedTo(w, k) && Dyck(w[1..k]) && Dyck(w[k + 1..])
  }

  ghost predicate BracketedTo(w: string, k: nat) { 1 <= k < |w| && IsOpen(w[0]) && w[k] == Closing(w[0]) }

  /** The open brackets left after matching `w` on top of `stack`, or nothing if a bracket does not match. */
  function Reduce(stack: string, w: string): (left: Option<string>)
    requires forall i :: 0 <= i < |stack| ==> IsOpen(stack[i])
    ensures left.Some? ==> forall i :: 0 <= i < |left.value| ==> IsOpen(left.value[i])
    decreases |w|
  {
    if w == [] then Some(stack)
    else if IsOpen(w[0]) then Reduce(stack + [w[0]], w[1..])
    else if stack != [] && w[0] == Closing(stack[|stack| - 1]) then Reduce(stack[..|stack| - 1], w[1..])
    else None
  }

  predicate AllOpen(stack: string) { forall i :: 0 <= i < |stack| ==> IsOpen(stack[i]) }

  lemma {:induction false} ReduceConcat(stack: string, a: string, b: string)
    requires AllOpen(stack)
    ensures Reduce(stack, a + b) ==
            if Reduce(stack, a).None? then None else Reduce(Reduce(stack, a).value, b)
    decreases |a|
  {
    if a == [] {
      assert a + b == b;
    } else {
      assert (a + b)[1..] == a[1..] + b;
      if IsOpen(a[0]) {
        ReduceConcat(stack + [a[0]], a[1..], b);
      } else if stack != [] && a[0] == Closing(stack[|stack| - 1]) {
        ReduceConcat(stack[..|stack| - 1], a[1..], b);
      }
    }
  }

  /** A Dyck word leaves every stack as it was. */
  lemma {:induction false} DyckReduces(stack: string, w: string)
    requires AllOpen(stack) && Dyck(w)
    ensures Reduce(stack, w) == Some(stack)
    decreases |w|
  {
    if w == [] {
    } else {
      var k: nat :| BracketedTo(w, k) && Dyck(w[1..k]) && Dyck(w[k + 1..]);
      hide Dyck, Reduce, Closing;
      DyckReduces(stack + [w[0]], w[1..k]);
      DyckReduces(stack, w[k + 1..]);
      BracketedReduces(stack, w, k);
    }
  }

  /** A bracketed word that leaves its own bracket on the stack, followed by the rest. */
  lemma BracketedReduces(stack: string, w: string, k: nat)
    requires AllOpen(stack) && BracketedTo(w, k) && Reduce(stack + [w[0]], w[1..k]) == Some(stack + [w[0]])
    ensures Reduce(stack, w) == Reduce(stack, w[k + 1..])
  {
    var pushed := stack + [w[0]];
    ReduceConcat(pushed, w[1..k], w[k..]);
    assert w[1..k] + w[k..] == w[1..];
    assert w[k..][1..] == w[k + 1..] && w[k..][0] == w[k] && pushed[..|pushed| - 1] == stack;
    Closes(pushed, w[k..]);
    Opens(stack, w);
    hide Reduce;
  }

  lemma Opens(stack: string, w: string)
    requires AllOpen(stack) && w != [] && IsOpen(w[0])
    ensures Reduce(stack, w) == Reduce(stack + [w[0]], w[1..])
  {}

  lemma Closes(stack: string, w: string)
    requires AllOpen(stack) && w != [] && stack != [] && w[0] == Closing(stack[|stack| - 1])
    ensures Reduce(stack, w) == Reduce(stack[..|stack| - 1], w[1..])
  {}

  lemma WrapDyck(w: string, k: nat)
    requires BracketedTo(w, k) && Dyck(w[1..k]) && Dyck(w[k + 1..])
    ensures Dyck(w)
  {}

  /** An opening bracket, a word, its closing bracket and another word make a word. */
  lemma NestedDyck(w: string, inner: nat, outer: nat)
    requires inner + outer + 2 <= |w| && IsOpen(w[0]) && Dyck(w[1..][..inner]) && w[1..][inner] == Closing(w[0])
    requires Dyck(w[1..][inner + 1..][..outer])
    ensures Dyck(w[..inner + 2 + outer])
  {
    hide Dyck;
    var d := w[..inner + 2 + outer];
    assert d[1..inner + 1] == w[1..][..inner] && d[inner + 2..] == w[1..][inner + 1..][..outer];
    WrapDyck(d, inner + 1);
  }

  /** If `w` empties a stack, its prefix up to the close of the top bracket is a Dyck word and that bracket. */
  lemma {:induction false} TopIsClosed(stack: string, top: char, w: string) returns (k: nat)
    requires AllOpen(stack) && IsOpen(top) && Reduce(stack + [top], w) == Some([])
    ensures k < |w| && Dyck(w[..k]) && w[k] == Closing(top) && Reduce(stack, w[k + 1..]) == Some([])
    decreases |w|
  {
    hide Dyck, Closing, Reduce;
    FirstStep(stack, top, w);
    if IsOpen(w[0]) {
      var inner := TopIsClosed(stack + [top], w[0], w[1..]);
      var rest := w[1..][inner + 1..];
      var outer := TopIsClosed(stack, top, rest);
      k := inner + 2 + outer;
      NestedDyck(w, inner, outer);
      assert rest[outer + 1..] == w[k + 1..];
    } else {
      k := 0;
      EmptyIsDyck();
    }
  }

  lemma EmptyIsDyck()
    ensures Dyck([])
  {}

  /** How a stack that is to be emptied meets the next bracket. */
  lemma FirstStep(stack: string, top: char, w: string)
    requires AllOpen(stack) && IsOpen(top) && Reduce(stack + [top], w) == Some([])
    ensures w != []
    ensures if IsOpen(w[0]) then Reduce(stack + [top] + [w[0]], w[1..]) == Some([])
            else w[0] == Closing(top) && Reduce(stack, w[1..]) == Some([])
  {
    var pushed := stack + [top];
    assert pushed != [] && pushed[..|pushed| - 1] == stack;
  }

  /** A word is a Dyck word exactly when it reduces to the empty stack. */
  lemma {:induction false} DyckIsReduction(w: string)
    ensures Dyck(w) <==> Reduce([], w) == Some([])
    decreases |w|
  {
    if Dyck(w) {
      DyckReduces([], w);
    }
    if Reduce([], w) == Some([]) && w != [] {
      var k := FirstIsClosed(w);
      hide Dyck, Reduce, BracketedTo;
      DyckIsReduction(w[k + 1..]);
      WrapDyck(w, k);
    }
  }

  lemma FirstIsClosed(w: string) returns (k: nat)
    requires Reduce([], w) == Some([]) && w != []
    ensures BracketedTo(w, k) && Dyck(w[1..k]) && Reduce([], w[k + 1..]) == Some([])
  {
    hide Dyck;
    assert [] + [w[0]] == [w[0]];
    var n := TopIsClosed([], w[0], w[1..]);
    hide Reduce;
    k := n + 1;
    assert w[1..][n + 1..] == w[k + 1..] && w[1..][..n] == w[1..k];
  }

  /** What closes a stack, innermost first. */
  function CloseAll(stack: string): string
    requires AllOpen(stack)
  {
    if stack == [] then [] else [Closing(stack[|stack| - 1])] + CloseAll(stack[..|stack| - 1])
  }

  lemma {:induction false} CloseAllReduces(stack: string)
    requires AllOpen(stack)
    ensures Reduce(stack, CloseAll(stack)) == Some([])
  {
    if stack == [] {
    } else {
      CloseAllReduces(stack[..|stack| - 1]);
      assert CloseAll(stack)[1..] == CloseAll(stack[..|stack| - 1]);
    }
  }

  ghost predicate Extendable(w: string) { exists v :: Dyck(w + v) }

  /** Matching gets stuck exactly on words that no continuation makes well bracketed. */
  lemma StuckMeansHopeless(w: string)
    ensures Extendable(w) <==> Reduce([], w).Some?
  {
    if Extendable(w) {
      var v :| Dyck(w + v);
      DyckIsReduction(w + v);
      ReduceConcat([], w, v);
    }
    if Reduce([], w).Some? {
      var v := CloseAll(Reduce([], w).value);
      ReduceConcat([], w, v);
      CloseAllReduces(Reduce([], w).value);
      DyckIsReduction(w + v);
    }
  }

  // ---- Lines and quotes ----

  /** The characters Python's `splitlines` breaks lines at. */
  predicate IsLineBreak(c: char) {
    var n := c as int;
    0x0A <= n <= 0x0D || 0x1C <= n <= 0x1E || n == 0x85 || n == 0x2028 || n == 0x2029
  }

  const LINE_BREAKS := "\n\r\U{0B}\U{0C}\U{1C}\U{1D}\U{1E}\U{85}\U{2028}\U{2029}"

  lemma LineBreaksAre(c: char)
    ensures IsLineBreak(c) <==> c in LINE_BREAKS
  {}

  function LineLength(s: string): (n: nat)
    ensures n <= |s| && (forall i :: 0 <= i < n ==> !IsLineBreak(s[i])) && (n < |s| ==> IsLineBreak(s[n]))
  {
    if s == [] || IsLineBreak(s[0]) then 0 else 1 + LineLength(s[1..])
  }

  /** A carriage return and a line feed are one break. */
  function BreakLength(s: string, n: nat): (m: nat)
    requires n <= |s|
    ensures n + m <= |s| && (n < |s| ==> m >= 1)
  {
    if n == |s| then 0
    else if n + 1 < |s| && s[n] as int == 0x0D && s[n + 1] as int == 0x0A then 2
    else 1
  }

  function SplitLines(s: string): seq<string> {
    if s == [] then []
    else
      var n := LineLength(s);
      [s[..n]] + SplitLines(s[n + BreakLength(s, n)..])
  }

  /** The text without its line breaks. */
  function Content(s: string): string {
    if s == [] then [] else (if IsLineBreak(s[0]) then [] else [s[0]]) + Content(s[1..])
  }

  function Flatten(lines: seq<string>): string { if lines == [] then [] else lines[0] + Flatten(lines[1..]) }

  lemma {:induction false} ContentSkips(s: string, n: nat)
    requires n <= |s| && forall i :: 0 <= i < n ==> !IsLineBreak(s[i])
    ensures Content(s) == s[..n] + Content(s[n..])
  {
    if n > 0 {
      ContentSkips(s[1..], n - 1);
      assert s[1..][n - 1..] == s[n..] && s[..n] == [s[0]] + s[1..][..n - 1];
    } else {
      assert s[0..] == s;
    }
  }

  lemma ContentAfterBreak(s: string, n: nat)
    requires n == LineLength(s)
    ensures Content(s[n..]) == Content(s[n + BreakLength(s, n)..])
  {
    hide Content, LineLength;
    var m := BreakLength(s, n);
    if m >= 1 {
      BreakIsNoContent(s, n);
    }
    if m == 2 {
      BreakIsNoContent(s, n + 1);
    }
  }

  lemma BreakIsNoContent(s: string, n: nat)
    requires n < |s| && IsLineBreak(s[n])
    ensures Content(s[n..]) == Content(s[n + 1..])
  {
    assert s[n..][1..] == s[n + 1..];
  }

  /** Splitting into lines loses the line breaks and nothing else. */
  lemma {:induction false} LinesHoldContent(s: string)
    ensures Flatten(SplitLines(s)) == Content(s)
    decreases |s|
  {
    if s != [] {
      hide Content;
      var n := LineLength(s);
      var rest := s[n + BreakLength(s, n)..];
      ContentSkips(s, n);
      ContentAfterBreak(s, n);
      LinesHoldContent(rest);
      assert SplitLines(s)[1..] == SplitLines(rest);
    } else {
      assert Content(s) == [];
    }
  }

  /** Lines, each followed by its break. */
  function Broken(lines: seq<string>, breaks: seq<string>): string
    requires |breaks| == |lines|
  {
    if lines == [] then [] else lines[0] + breaks[0] + Broken(lines[1..], breaks[1..])
  }

  /**
   * Lines without line breaks and the breaks after them: a carriage return with a line feed, or one break alone.
   * Only the last line may have none, unless it is empty, and a carriage return has no line feed right after it.
   */
  ghost predicate AreBreaks(lines: seq<string>, breaks: seq<string>)
    requires |breaks| == |lines|
  {
    && (forall i :: 0 <= i < |lines| ==> forall c :: c in lines[i] ==> c !in LINE_BREAKS)
    && (forall i :: 0 <= i < |lines| ==>
          || breaks[i] == "\r\n" || (|breaks[i]| == 1 && breaks[i][0] in LINE_BREAKS)
          || (i == |lines| - 1 && breaks[i] == [] && lines[i] != []))
    && (forall i :: 0 <= i < |lines| - 1 && breaks[i] == "\r" && lines[i + 1] == [] ==>
          breaks[i + 1] != [] && breaks[i + 1][0] != '\n')
  }

  /** Splitting undoes writing lines with any breaks between them. */
  lemma {:induction false} LinesReadBack(lines: seq<string>, breaks: seq<string>)
    requires |breaks| == |lines| && AreBreaks(lines, breaks)
    ensures SplitLines(Broken(lines, breaks)) == lines
  {
    hide IsLineBreak, LINE_BREAKS;
    if lines == [] {
    } else {
      var line, end, rest := lines[0], breaks[0], Broken(lines[1..], breaks[1..]);
      assert AreBreaks(lines[1..], breaks[1..]) by { LaterBreaks(lines, breaks); }
      LinesReadBack(lines[1..], breaks[1..]);
      NextStart(lines, breaks);
      OneLine(line, end, rest);
      assert line + end + rest == Broken(lines, breaks);
    }
  }

  lemma LaterBreaks(lines: seq<string>, breaks: seq<string>)
    requires |breaks| == |lines| > 0 && AreBreaks(lines, breaks)
    ensures AreBreaks(lines[1..], breaks[1..])
  {
    hide LINE_BREAKS;
  }

  /** What follows a break does not continue it, and nothing follows a line without one. */
  lemma NextStart(lines: seq<string>, breaks: seq<string>)
    requires |breaks| == |lines| > 0 && AreBreaks(lines, breaks)
    ensures var rest := Broken(lines[1..], breaks[1..]);
            && (breaks[0] == "\r" ==> rest == [] || rest[0] != '\n') && (breaks[0] == [] ==> rest == [])
            && (forall c :: c in lines[0] ==> !IsLineBreak(c))
            && (breaks[0] == "\r\n" || (|breaks[0]| == 1 && IsLineBreak(breaks[0][0]))
                || (breaks[0] == [] && lines[0] != []))
  {
    hide IsLineBreak, LINE_BREAKS;
    forall c ensures IsLineBreak(c) <==> c in LINE_BREAKS { LineBreaksAre(c); }
    if |lines| > 1 && breaks[0] == "\r" && lines[1] != [] {
      NoFeed(lines[1]);
    }
  }

  lemma NoFeed(line: string)
    requires line != [] && line[0] !in LINE_BREAKS
    ensures line[0] != '\n'
  {
    assert LINE_BREAKS[0] == '\n';
  }

  lemma LineEnds(line: string, rest: string)
    requires (forall c :: c in line ==> !IsLineBreak(c)) && (rest == [] || IsLineBreak(rest[0]))
    ensures LineLength(line + rest) == |line|
  {
    hide IsLineBreak;
    var s := line + rest;
    assert forall i :: 0 <= i < |line| ==> s[i] == line[i] && line[i] in line;
    assert rest != [] ==> s[|line|] == rest[0];
  }

  lemma BreakEnds(line: string, end: string, rest: string)
    requires end == "\r\n" || |end| == 1 || (end == [] && rest == [])
    requires end == "\r" ==> rest == [] || rest[0] != '\n'
    ensures BreakLength(line + end + rest, |line|) == |end|
  {
    var s, n := line + end + rest, |line|;
    if end == "\r\n" {
      assert s[n] == end[0] == '\r' && s[n + 1] == end[1] == '\n';
    } else if |end| == 1 {
      assert s[n] == end[0] && (rest != [] ==> s[n + 1] == rest[0]);
      assert end[0] == '\r' ==> end == "\r";
    }
  }

  lemma OneLine(line: string, end: string, rest: string)
    requires forall c :: c in line ==> !IsLineBreak(c)
    requires end == "\r\n" || (|end| == 1 && IsLineBreak(end[0])) || (end == [] && line != [])
    requires (end == "\r" ==> rest == [] || rest[0] != '\n') && (end == [] ==> rest == [])
    ensures SplitLines(line + end + rest) == [line] + SplitLines(rest)
  {
    hide LineLength, BreakLength, IsLineBreak, SplitLines;
    var s := line + end + rest;
    FeedBreaks();
    FirstLine(s);
    assert s == line + (end + rest);
    LineEnds(line, end + rest);
    BreakEnds(line, end, rest);
    assert s[..|line|] == line && s[|line| + |end|..] == rest;
  }

  lemma FirstLine(s: string)
    requires s != []
    ensures var n := LineLength(s); SplitLines(s) == [s[..n]] + SplitLines(s[n + BreakLength(s, n)..])
  {}

  lemma FeedBreaks()
    ensures IsLineBreak("\r\n"[0])
  {}

  predicate IsQuote(c: char) { c == '\'' || c == '"' || c == '`' }

  /** The brackets outside quoted text. */
  function Unquoted(s: string): string
    decreases |s|
  {
    if s == [] then []
    else if IsQuote(s[0]) then Quoted(s[1..], s[0])
    else (if IsBracket(s[0]) then [s[0]] else []) + Unquoted(s[1..])
  }

  /** The brackets that follow the rest of a quoted text; a backslash hides the character after it. */
  function Quoted(s: string, quote: char): string
    decreases |s|
  {
    if s == [] then []
    else if s[0] == '\\' then if |s| == 1 then [] else Quoted(s[2..], quote)
    else if s[0] == quote then Unquoted(s[1..])
    else Quoted(s[1..], quote)
  }

  // ---- The matcher ----

  /** What a character does: the quote and escape flags after it, and whether it counts as a bracket. */
  datatype Mode = Mode(quote: Option<char>, escaped: bool)

  predicate Counts(m: Mode, c: char) { m.quote.None? && IsBracket(c) }

  function NextMode(m: Mode, c: char): Mode {
    if m.quote.Some? then
      if m.escaped then Mode(m.quote, false)
      else if c == '\\' then Mode(m.quote, true)
      else if c == m.quote.value then Mode(None, false)
      else m
    else if IsQuote(c) then Mode(Some(c), m.escaped)
    else m
  }

  /** The brackets the matcher sees from a mode on. */
  function Seen(m: Mode, s: string): string
    decreases |s|
  {
    if s == [] then [] else (if Counts(m, s[0]) then [s[0]] else []) + Seen(NextMode(m, s[0]), s[1..])
  }

  function Through(m: Mode, s: string): Mode
    decreases |s|
  {
    if s == [] then m else Through(NextMode(m, s[0]), s[1..])
  }

  /** The matcher's flags see exactly the brackets outside quotes. */
  lemma {:induction false} SeenIsUnquoted(s: string, quote: char)
    ensures Seen(Mode(None, false), s) == Unquoted(s)
    ensures Seen(Mode(Some(quote), false), s) == Quoted(s, quote)
    ensures Seen(Mode(Some(quote), true), s) == if s == [] then [] else Quoted(s[1..], quote)
    decreases |s|
  {
    hide Seen, Unquoted, Quoted;
    if s == [] {
      NothingSeen(quote);
    } else {
      SeenStep(Mode(None, false), s);
      SeenStep(Mode(Some(quote), false), s);
      SeenStep(Mode(Some(quote), true), s);
      UnquotedStep(s, quote);
      SeenIsUnquoted(s[1..], quote);
      SeenIsUnquoted(s[1..], s[0]);
    }
  }

  lemma NothingSeen(quote: char)
    ensures Unquoted([]) == [] && Quoted([], quote) == [] && forall m :: Seen(m, []) == []
  {}

  lemma SeenStep(m: Mode, s: string)
    requires s != []
    ensures var later := Seen(NextMode(m, s[0]), s[1..]);
            Seen(m, s) == if Counts(m, s[0]) then [s[0]] + later else later
  {
    hide NextMode, Counts;
  }

  lemma UnquotedStep(s: string, quote: char)
    requires s != []
    ensures Unquoted(s) ==
            if IsQuote(s[0]) then Quoted(s[1..], s[0])
            else if IsBracket(s[0]) then [s[0]] + Unquoted(s[1..])
            else Unquoted(s[1..])
    ensures Quoted(s, quote) ==
            if s[0] == '\\' then if s[1..] == [] then [] else Quoted(s[1..][1..], quote)
            else if s[0] == quote then Unquoted(s[1..])
            else Quoted(s[1..], quote)
  {
    if |s| > 1 {
      assert s[1..][1..] == s[2..];
    }
  }

  /** A bracket and the number of its line. */
  datatype Mark = Mark(bracket: char, line: nat)

  function Chars(marks: seq<Mark>): (w: string)
    ensures |w| == |marks| && forall i :: 0 <= i < |w| ==> w[i] == marks[i].bracket
  {
    seq(|marks|, i requires 0 <= i < |marks| => marks[i].bracket)
  }

  function MarksOnLine(m: Mode, s: string, line: nat): seq<Mark>
    decreases |s|
  {
    if s == [] then []
    else
      (if Counts(m, s[0]) then [Mark(s[0], line)] else [])
      + MarksOnLine(NextMode(m, s[0]), s[1..], line)
  }

  function Marks(m: Mode, lines: seq<string>, line: nat): seq<Mark>
    decreases |lines|
  {
    if lines == [] then [] else MarksOnLine(m, lines[0], line) + Marks(Through(m, lines[0]), lines[1..], line + 1)
  }

  datatype Verdict = Balanced | Unbalanced(at: Mark) | Unclosed(at: Mark)

  function Judge(stack: seq<Mark>, marks: seq<Mark>): Verdict
    requires AllOpen(Chars(stack))
    decreases |marks|
  {
    if marks == [] then if stack == [] then Balanced else Unclosed(stack[|stack| - 1])
    else if IsOpen(marks[0].bracket) then
      assert Chars(stack + [marks[0]]) == Chars(stack) + [marks[0].bracket];
      Judge(stack + [marks[0]], marks[1..])
    else if stack != [] && Chars(stack)[|stack| - 1] == stack[|stack| - 1].bracket
      && marks[0].bracket == Closing(stack[|stack| - 1].bracket) then
      assert Chars(stack[..|stack| - 1]) == Chars(stack)[..|stack| - 1];
      Judge(stack[..|stack| - 1], marks[1..])
    else Unbalanced(marks[0])
  }

  /** One more mark: pushed, matched with the innermost open bracket, or rejected. */
  lemma JudgeOneMore(stack: seq<Mark>, mark: Mark, rest: seq<Mark>)
    requires AllOpen(Chars(stack))
    ensures stack != [] ==> IsOpen(stack[|stack| - 1].bracket) && AllOpen(Chars(stack[..|stack| - 1]))
    ensures IsOpen(mark.bracket) ==>
            AllOpen(Chars(stack + [mark])) && Judge(stack, [mark] + rest) == Judge(stack + [mark], rest)
    ensures !IsOpen(mark.bracket) && stack != [] && mark.bracket == Closing(stack[|stack| - 1].bracket) ==>
              Judge(stack, [mark] + rest) == Judge(stack[..|stack| - 1], rest)
    ensures !IsOpen(mark.bracket) && (stack == [] || mark.bracket != Closing(stack[|stack| - 1].bracket)) ==>
              Judge(stack, [mark] + rest) == Unbalanced(mark)
  {
    assert ([mark] + rest)[1..] == rest;
    assert Chars(stack + [mark]) == Chars(stack) + [mark.bracket];
    if stack != [] {
      assert Chars(stack)[|stack| - 1] == stack[|stack| - 1].bracket;
      assert Chars(stack[..|stack| - 1]) == Chars(stack)[..|stack| - 1];
    }
  }

  /** The loops judge the marks of the text: quote and escape flags carry over from line to line. */
  method RequireBalanced(text: string) returns (verdict: Verdict)
    ensures verdict == Judge([], MarksOf(text))
    ensures verdict.Balanced? <==> Dyck(Unquoted(Content(text)))
  {
    AcceptsExactlyDyck(text);
    hide Dyck, Unquoted;
    var stack: seq<Mark> := [];
    var quote: Option<char>, escaped := None, false;
    var lines := SplitLines(text);
    ghost var all := Judge([], Marks(Mode(None, false), lines, 1));
    for n := 0 to |lines|
      invariant AllOpen(Chars(stack))
      invariant Judge(stack, Marks(Mode(quote, escaped), lines[n..], n + 1)) == all
    {
      var line := lines[n];
      ghost var later := lines[n + 1..];
      assert lines[n..][0] == line && lines[n..][1..] == later && line[0..] == line;
      assert Marks(Mode(quote, escaped), lines[n..], n + 1) == Remaining(Mode(quote, escaped), line, later, n + 1);
      hide Judge, Remaining, Marks, AllOpen;
      for i := 0 to |line|
        invariant AllOpen(Chars(stack))
        invariant Judge(stack, Remaining(Mode(quote, escaped), line[i..], later, n + 1)) == all
      {
        var c := line[i];
        RemainingStep(Mode(quote, escaped), line[i..], later, n + 1);
        assert line[i..][1..] == line[i + 1..];
        ghost var rest := Remaining(NextMode(Mode(quote, escaped), c), line[i + 1..], later, n + 1);
        assert [] + rest == rest;
        JudgeOneMore(stack, Mark(c, n + 1), rest);
        if quote.Some? {
          if escaped {
            escaped := false;
          } else if c == '\\' {
            escaped := true;
          } else if c == quote.value {
            quote := None;
          }
          continue;
        }
        if c == '\'' || c == '"' || c == '`' {
          quote := Some(c);
        } else if IsOpen(c) {
          stack := stack + [Mark(c, n + 1)];
        } else if IsClose(c) {
          if stack == [] || Closing(stack[|stack| - 1].bracket) != c {
            return Unbalanced(Mark(c, n + 1));
          }
          stack := stack[..|stack| - 1];
        }
      }
      LineDone(Mode(quote, escaped), later, n + 1);
      assert line[|line|..] == [];
    }
    if stack != [] {
      return Unclosed(stack[|stack| - 1]);
    }
    return Balanced;
  }

  /** The marks still to come, in the middle of a line. */
  function Remaining(m: Mode, s: string, later: seq<string>, line: nat): seq<Mark> {
    MarksOnLine(m, s, line) + Marks(Through(m, s), later, line + 1)
  }

  lemma LineDone(m: Mode, later: seq<string>, line: nat)
    ensures Remaining(m, [], later, line) == Marks(m, later, line + 1)
  {}

  lemma RemainingStep(m: Mode, s: string, later: seq<string>, line: nat)
    requires s != []
    ensures Remaining(m, s, later, line) ==
            (if Counts(m, s[0]) then [Mark(s[0], line)] else []) + Remaining(NextMode(m, s[0]), s[1..], later, line)
  {}

  // ---- What the verdict means ----

  lemma {:induction false} LineMarksAreSeen(m: Mode, s: string, line: nat, more: string)
    ensures Seen(m, s + more) == Chars(MarksOnLine(m, s, line)) + Seen(Through(m, s), more)
    decreases |s|
  {
    if s == [] {
      assert s + more == more;
    } else {
      assert (s + more)[1..] == s[1..] + more;
      LineMarksAreSeen(NextMode(m, s[0]), s[1..], line, more);
      var rest := MarksOnLine(NextMode(m, s[0]), s[1..], line);
      assert Chars([Mark(s[0], line)] + rest) == [s[0]] + Chars(rest);
      assert [] + rest == rest;
    }
  }

  lemma {:induction false} MarksAreSeen(m: Mode, lines: seq<string>, line: nat)
    ensures Chars(Marks(m, lines, line)) == Seen(m, Flatten(lines))
    decreases |lines|
  {
    if lines == [] {
    } else {
      hide Seen, MarksOnLine, Through;
      var here, later := MarksOnLine(m, lines[0], line), Marks(Through(m, lines[0]), lines[1..], line + 1);
      MarksAreSeen(Through(m, lines[0]), lines[1..], line + 1);
      LineMarksAreSeen(m, lines[0], line, Flatten(lines[1..]));
      assert Chars(here + later) == Chars(here) + Chars(later);
    }
  }

  lemma {:induction false} JudgeIsReduction(stack: seq<Mark>, marks: seq<Mark>)
    requires AllOpen(Chars(stack))
    ensures var v, left := Judge(stack, marks), Reduce(Chars(stack), Chars(marks));
            && (v.Balanced? <==> left == Some([]))
            && (v.Unbalanced? <==> left.None?)
            && (v.Unclosed? ==>
                  && left.Some? && left.value != [] && left.value[|left.value| - 1] == v.at.bracket
                  && v.at in stack + marks)
    decreases |marks|
  {
    if marks != [] {
      var rest := marks[1..];
      assert Chars(marks)[1..] == Chars(rest) && marks == [marks[0]] + rest;
      JudgeOneMore(stack, marks[0], rest);
      if IsOpen(marks[0].bracket) {
        assert Chars(stack + [marks[0]]) == Chars(stack) + [marks[0].bracket];
        JudgeIsReduction(stack + [marks[0]], rest);
      } else if stack != [] && marks[0].bracket == Closing(stack[|stack| - 1].bracket) {
        assert Chars(stack[..|stack| - 1]) == Chars(stack)[..|stack| - 1];
        JudgeIsReduction(stack[..|stack| - 1], rest);
      }
    }
  }

  function MarksOf(text: string): seq<Mark> { Marks(Mode(None, false), SplitLines(text), 1) }

  lemma {:induction false} MarksStandOnLine(m: Mode, s: string, line: nat, mark: Mark)
    requires mark in MarksOnLine(m, s, line)
    ensures mark.line == line && mark.bracket in s && IsBracket(mark.bracket)
    decreases |s|
  {
    hide NextMode;
    var rest := MarksOnLine(NextMode(m, s[0]), s[1..], line);
    if mark in rest {
      MarksStandOnLine(NextMode(m, s[0]), s[1..], line, mark);
    }
  }

  lemma {:induction false} MarksStandOnLines(m: Mode, lines: seq<string>, line: nat, mark: Mark)
    requires mark in Marks(m, lines, line)
    ensures line <= mark.line < line + |lines| && mark.bracket in lines[mark.line - line] && IsBracket(mark.bracket)
    decreases |lines|
  {
    hide MarksOnLine, Through, IsBracket;
    if mark in MarksOnLine(m, lines[0], line) {
      MarksStandOnLine(m, lines[0], line, mark);
    } else {
      MarksStandOnLines(Through(m, lines[0]), lines[1..], line + 1, mark);
    }
  }

  /** A bracket is reported with the number of a line that holds it, counted from one. */
  lemma MarksHaveTheirLine(text: string, mark: Mark)
    requires mark in MarksOf(text)
    ensures 1 <= mark.line <= |SplitLines(text)| && mark.bracket in SplitLines(text)[mark.line - 1]
  {
    hide Marks, SplitLines;
    MarksStandOnLines(Mode(None, false), SplitLines(text), 1, mark);
  }

  lemma MarksAreUnquoted(text: string)
    ensures Chars(MarksOf(text)) == Unquoted(Content(text))
  {
    MarksAreSeen(Mode(None, false), SplitLines(text), 1);
    LinesHoldContent(text);
    SeenIsUnquoted(Content(text), '"');
  }

  /** A text is accepted exactly when its brackets outside quotes form a Dyck word. */
  lemma AcceptsExactlyDyck(text: string)
    ensures Judge([], MarksOf(text)).Balanced? <==> Dyck(Unquoted(Content(text)))
  {
    MarksAreUnquoted(text);
    assert Chars([]) == [];
    JudgeIsReduction([], MarksOf(text));
    DyckIsReduction(Unquoted(Content(text)));
  }

  /** The bracket reported as unbalanced is the first one after which nothing could make the text well bracketed. */
  lemma {:induction false} RejectsAtFirstHopeless(stack: seq<Mark>, marks: seq<Mark>) returns (k: nat)
    requires AllOpen(Chars(stack)) && Judge(stack, marks).Unbalanced?
    ensures k < |marks| && marks[k] == Judge(stack, marks).at
    ensures Reduce(Chars(stack), Chars(marks[..k])).Some? && Reduce(Chars(stack), Chars(marks[..k + 1])).None?
    decreases |marks|
  {
    hide Judge, Reduce, AllOpen, Chars;
    NeedsMarks(stack, marks);
    var mark, rest := marks[0], marks[1..];
    assert marks == [mark] + rest;
    JudgeOneMore(stack, mark, rest);
    if IsOpen(mark.bracket) || (stack != [] && mark.bracket == Closing(stack[|stack| - 1].bracket)) {
      var next := if IsOpen(mark.bracket) then stack + [mark] else stack[..|stack| - 1];
      var j := RejectsAtFirstHopeless(next, rest);
      k := j + 1;
      ReduceOneMore(stack, mark, rest[..j]);
      ReduceOneMore(stack, mark, rest[..j + 1]);
      assert marks[..k] == [mark] + rest[..j] && marks[..k + 1] == [mark] + rest[..j + 1];
    } else {
      k := 0;
      ReduceOneMore(stack, mark, []);
      NothingReduces(stack);
      assert marks[..0] == [] && marks[..1] == [mark] + [];
    }
  }

  lemma NeedsMarks(stack: seq<Mark>, marks: seq<Mark>)
    requires AllOpen(Chars(stack)) && Judge(stack, marks).Unbalanced?
    ensures marks != []
  {}

  lemma NothingReduces(stack: seq<Mark>)
    requires AllOpen(Chars(stack))
    ensures Reduce(Chars(stack), Chars([])).Some?
  {}

  /** The reduction meets one more mark as the judgement does. */
  lemma ReduceOneMore(stack: seq<Mark>, mark: Mark, rest: seq<Mark>)
    requires AllOpen(Chars(stack))
    ensures stack != [] ==> IsOpen(stack[|stack| - 1].bracket) && AllOpen(Chars(stack[..|stack| - 1]))
    ensures IsOpen(mark.bracket) ==>
              && AllOpen(Chars(stack + [mark]))
              && Reduce(Chars(stack), Chars([mark] + rest)) == Reduce(Chars(stack + [mark]), Chars(rest))
    ensures !IsOpen(mark.bracket) && stack != [] && mark.bracket == Closing(stack[|stack| - 1].bracket) ==>
              Reduce(Chars(stack), Chars([mark] + rest)) == Reduce(Chars(stack[..|stack| - 1]), Chars(rest))
    ensures !IsOpen(mark.bracket) && (stack == [] || mark.bracket != Closing(stack[|stack| - 1].bracket)) ==>
              Reduce(Chars(stack), Chars([mark] + rest)).None?
  {
    var w := Chars([mark] + rest);
    assert w[0] == mark.bracket && w[1..] == Chars(rest);
    assert Chars(stack + [mark]) == Chars(stack) + [mark.bracket];
    if stack != [] {
      assert Chars(stack)[|stack| - 1] == stack[|stack| - 1].bracket;
      assert Chars(stack[..|stack| - 1]) == Chars(stack)[..|stack| - 1];
    }
  }

  lemma RejectionPoint(text: string)
    requires Judge([], MarksOf(text)).Unbalanced?
    ensures exists k: nat :: k < |MarksOf(text)| && MarksOf(text)[k] == Judge([], MarksOf(text)).at
                             && Extendable(Chars(MarksOf(text)[..k])) && !Extendable(Chars(MarksOf(text)[..k + 1]))
  {
    var marks := MarksOf(text);
    assert Chars([]) == [];
    var k := RejectsAtFirstHopeless([], marks);
    StuckMeansHopeless(Chars(marks[..k]));
    StuckMeansHopeless(Chars(marks[..k + 1]));
  }

  /** A matched pair may be put anywhere into a word. */
  lemma PairFits(x: string, c: char, y: string)
    requires IsOpen(c) && Dyck(x + y)
    ensures Dyck(x + [c, Closing(c)] + y)
  {
    hide Dyck;
    DyckIsReduction(x + y);
    ReduceConcat([], x, y);
    var stack, pair := Reduce([], x).value, [c, Closing(c)];
    ReduceConcat([], x, pair + y);
    assert (pair + y)[1..] == [Closing(c)] + y && (pair + y)[1..][1..] == y;
    Opens(stack, pair + y);
    assert (stack + [c])[..|stack|] == stack;
    Closes(stack + [c], [Closing(c)] + y);
    hide Reduce;
    assert x + pair + y == x + (pair + y);
    DyckIsReduction(x + pair + y);
  }

  /** The bracket reported as unclosed is open, and what follows it is well bracketed. */
  lemma {:induction false} ReportsInnermostOpen(stack: seq<Mark>, marks: seq<Mark>) returns (k: nat)
    requires AllOpen(Chars(stack)) && Judge(stack, marks).Unclosed?
    ensures k < |stack + marks| && (stack + marks)[k] == Judge(stack, marks).at
    ensures IsOpen((stack + marks)[k].bracket) && Dyck(Chars((stack + marks)[k + 1..]))
    decreases |marks|
  {
    hide Dyck;
    if marks == [] {
      k := |stack| - 1;
      assert Chars(stack)[k] == stack[k].bracket && Chars((stack + marks)[k + 1..]) == [];
      EmptyIsDyck();
    } else {
      var rest := marks[1..];
      assert marks == [marks[0]] + rest;
      JudgeOneMore(stack, marks[0], rest);
      if IsOpen(marks[0].bracket) {
        hide Judge;
        assert stack + [marks[0]] + rest == stack + marks;
        k := ReportsInnermostOpen(stack + [marks[0]], rest);
      } else {
        var n := |stack| - 1;
        var j := ReportsInnermostOpen(stack[..n], rest);
        k := PastClosed(stack, marks, j);
      }
    }
  }

  lemma CharsConcat(x: seq<Mark>, y: seq<Mark>)
    ensures Chars(x + y) == Chars(x) + Chars(y)
  {}

  /** A matched pair put in after the first |stack| - 1 marks moves place `j` and leaves what follows it a word. */
  lemma PastClosed(stack: seq<Mark>, marks: seq<Mark>, j: nat) returns (k: nat)
    requires stack != [] && marks != [] && IsOpen(stack[|stack| - 1].bracket)
    requires marks[0].bracket == Closing(stack[|stack| - 1].bracket)
    requires var less := stack[..|stack| - 1] + marks[1..]; j < |less| && Dyck(Chars(less[j + 1..]))
    ensures k < |stack + marks| && (stack + marks)[k] == (stack[..|stack| - 1] + marks[1..])[j]
    ensures Dyck(Chars((stack + marks)[k + 1..]))
  {
    hide Dyck, Closing, Chars, IsOpen;
    var n := |stack| - 1;
    if j < n {
      k := j;
      var x, y := stack[..n][j + 1..], marks[1..];
      AroundPair(stack, marks, j);
      CharsConcat(x, y);
      PairFits(Chars(x), stack[n].bracket, Chars(y));
      CharsConcat(x, [stack[n], marks[0]]);
      CharsConcat(x + [stack[n], marks[0]], y);
      assert Chars([stack[n], marks[0]]) == [stack[n].bracket, Closing(stack[n].bracket)];
    } else {
      k := j + 2;
      assert (stack + marks)[k + 1..] == (stack[..n] + marks[1..])[j + 1..];
    }
  }

  lemma AroundPair(stack: seq<Mark>, marks: seq<Mark>, j: nat)
    requires j < |stack| - 1 && marks != []
    ensures var n := |stack| - 1; var x, y := stack[..n][j + 1..], marks[1..];
            && (stack[..n] + marks[1..])[j + 1..] == x + y
            && (stack + marks)[j + 1..] == x + [stack[n], marks[0]] + y
  {}

  /** A text reported as unclosed could still be continued to a balanced one; the innermost open bracket is reported. */
  lemma UnclosedPoint(text: string)
    requires Judge([], MarksOf(text)).Unclosed?
    ensures Extendable(Chars(MarksOf(text))) && !Dyck(Chars(MarksOf(text)))
    ensures exists k: nat :: k < |MarksOf(text)| && MarksOf(text)[k] == Judge([], MarksOf(text)).at
                             && IsOpen(MarksOf(text)[k].bracket) && Dyck(Chars(MarksOf(text)[k + 1..]))
  {
    hide Dyck, Extendable, MarksOf, Reduce;
    var marks := MarksOf(text);
    assert Chars([]) == [] && [] + marks == marks;
    JudgeIsReduction([], marks);
    StuckMeansHopeless(Chars(marks));
    DyckIsReduction(Chars(marks));
    var k := ReportsInnermostOpen([], marks);
  }

  // ---- Which brackets match, and what quotes hide ----

  /** The three pairs of brackets. */
  predicate IsPair(o: char, c: char) { (o == '{' && c == '}') || (o == '(' && c == ')') || (o == '[' && c == ']') }

  /** Two characters around a word make a word exactly if they are one of the three pairs. */
  lemma WrappedExactly(o: char, x: string, c: char)
    requires Dyck(x)
    ensures Dyck([o] + x + [c]) <==> IsPair(o, c)
  {
    hide Dyck;
    var w := [o] + x + [c];
    DyckIsReduction(w);
    assert w[0] == o && w[1..] == x + [c];
    if IsOpen(o) {
      assert [] + [o] == [o];
      DyckReduces([o], x);
      ReduceConcat([o], x, [c]);
      OneMoreOn(o, c);
    }
  }

  lemma OneMoreOn(o: char, c: char)
    requires IsOpen(o)
    ensures Reduce([o], [c]) == Some([]) <==> IsPair(o, c)
  {
    assert [c][1..] == [] && [o][..0] == [];
  }

  /**
   * A text whose visible part between two characters is balanced is accepted exactly if the two are a pair, or
   * are no brackets at all.
   */
  lemma AcceptsPairsExactly(text: string, o: char, inside: string, c: char)
    requires Content(text) == [o] + inside + [c] && o !in "'\"`" && c !in "'\"`"
    requires Through(OUTSIDE, inside) == OUTSIDE && Dyck(Unquoted(inside))
    ensures Judge([], MarksOf(text)).Balanced? <==> IsPair(o, c) || (o !in "{}()[]" && c !in "{}()[]")
  {
    hide IsBracket, Dyck, MarksOf, Judge, Content, Unquoted, Through;
    AcceptsExactlyDyck(text);
    UnquotedAround(o, inside, c);
    SixBrackets(o);
    SixBrackets(c);
    PairsAreBrackets(o, c);
    var x := Unquoted(inside);
    if IsBracket(o) && IsBracket(c) {
      WrappedExactly(o, x, c);
    } else if IsBracket(o) {
      assert [o] + x + [] == [o] + x;
      OneSidedFails(x, o);
    } else if IsBracket(c) {
      assert [] + x + [c] == x + [c];
      OneSidedFails(x, c);
    } else {
      assert [] + x + [] == x;
    }
  }

  lemma SixBrackets(c: char)
    ensures IsBracket(c) <==> c in "{}()[]"
  {}

  lemma PairsAreBrackets(o: char, c: char)
    ensures IsPair(o, c) ==> IsBracket(o) && IsBracket(c)
  {}

  function BracketOf(c: char): string { if IsBracket(c) then [c] else [] }

  lemma UnquotedAround(o: char, inside: string, c: char)
    requires o !in "'\"`" && c !in "'\"`" && Through(OUTSIDE, inside) == OUTSIDE
    ensures Unquoted([o] + inside + [c]) == BracketOf(o) + Unquoted(inside) + BracketOf(c)
  {
    hide Seen, Unquoted, Quoted, Through, IsBracket;
    SeenIsUnquoted([o] + inside + [c], o);
    SeenIsUnquoted(inside, o);
    PlainStep(o);
    PlainStep(c);
    ThroughOne(OUTSIDE, o, inside);
    SeenConcat(OUTSIDE, [o] + inside, [c]);
    SeenConcat(OUTSIDE, [o], inside);
  }

  lemma ThroughOne(m: Mode, c: char, s: string)
    ensures Through(m, [c] + s) == Through(Through(m, [c]), s)
  {
    hide NextMode;
    assert ([c] + s)[1..] == s && [c][1..] == [];
  }

  /** A character outside quotes that is no quotation mark. */
  lemma PlainStep(c: char)
    requires c !in "'\"`"
    ensures Seen(OUTSIDE, [c]) == BracketOf(c) && Through(OUTSIDE, [c]) == OUTSIDE
  {
    assert [c][1..] == [];
  }

  /** One bracket before or after a word leaves no word. */
  lemma OneSidedFails(x: string, b: char)
    requires Dyck(x) && IsBracket(b)
    ensures !Dyck([b] + x) && !Dyck(x + [b])
  {
    hide Dyck;
    DyckIsReduction([b] + x);
    DyckIsReduction(x + [b]);
    assert ([b] + x)[1..] == x && [b][1..] == [] && [] + [b] == [b];
    DyckReduces([], x);
    ReduceConcat([], x, [b]);
    if IsOpen(b) {
      DyckReduces([b], x);
    }
  }

  /** Escape pairs and characters that are neither a backslash nor the quote. */
  predicate IsQuotable(s: string, quote: char)
    decreases |s|
  {
    || s == []
    || (s[0] == '\\' && |s| >= 2 && IsQuotable(s[2..], quote))
    || (s[0] != '\\' && s[0] != quote && IsQuotable(s[1..], quote))
  }

  lemma {:induction false} QuotableIsHidden(inside: string, quote: char, after: string)
    requires IsQuotable(inside, quote) && quote != '\\'
    ensures Quoted(inside + [quote] + after, quote) == Unquoted(after)
    decreases |inside|
  {
    var s := inside + [quote] + after;
    if inside == [] {
      assert s[0] == quote && s[1..] == after;
    } else if inside[0] == '\\' {
      assert s[2..] == inside[2..] + [quote] + after;
      QuotableIsHidden(inside[2..], quote, after);
    } else {
      assert s[1..] == inside[1..] + [quote] + after;
      QuotableIsHidden(inside[1..], quote, after);
    }
  }

  /**
   * Each of the three quotation marks hides what stands up to its own next occurrence, escapes and the other
   * marks included: leaving the quotation out of a text does not change whether it is accepted.
   */
  lemma QuotationsAreHidden(text: string, without: string, before: string, quote: char, inside: string, after: string)
    requires Content(text) == before + ([quote] + inside + [quote] + after) && Content(without) == before + after
    requires quote in "'\"`" && IsQuotable(inside, quote) && Through(OUTSIDE, before) == OUTSIDE
    ensures Judge([], MarksOf(text)).Balanced? <==> Judge([], MarksOf(without)).Balanced?
  {
    hide Dyck, MarksOf, Judge, Content, Unquoted, Through, IsQuotable;
    AcceptsExactlyDyck(text);
    AcceptsExactlyDyck(without);
    QuotationIsNothing(quote, inside, after);
    UnquotedConcat(before, [quote] + inside + [quote] + after);
    UnquotedConcat(before, after);
  }

  lemma UnquotedConcat(before: string, rest: string)
    requires Through(OUTSIDE, before) == OUTSIDE
    ensures Unquoted(before + rest) == Unquoted(before) + Unquoted(rest)
  {
    hide Seen, Unquoted, Quoted, Through;
    SeenIsUnquoted(before + rest, '"');
    SeenIsUnquoted(before, '"');
    SeenIsUnquoted(rest, '"');
    SeenConcat(OUTSIDE, before, rest);
  }

  lemma QuotationIsNothing(quote: char, inside: string, after: string)
    requires quote in "'\"`" && IsQuotable(inside, quote)
    ensures Unquoted([quote] + inside + [quote] + after) == Unquoted(after)
  {
    hide Quoted, IsQuotable;
    var s := [quote] + inside + [quote] + after;
    assert s[0] == quote && s[1..] == inside + [quote] + after;
    QuotableIsHidden(inside, quote, after);
  }

  // ---- Open quotes ----

  lemma {:induction false} OpenQuoteHides(s: string, quote: char)
    requires quote !in s && '\\' !in s
    ensures Quoted(s, quote) == []
  {
    if s == [] {
    } else {
      OpenQuoteHides(s[1..], quote);
    }
  }

  lemma {:induction false} SeenConcat(m: Mode, a: string, b: string)
    ensures Seen(m, a + b) == Seen(m, a) + Seen(Through(m, a), b)
    decreases |a|
  {
    hide NextMode, Counts;
    if a == [] {
      assert a + b == b;
    } else {
      assert (a + b)[1..] == a[1..] + b;
      SeenConcat(NextMode(m, a[0]), a[1..], b);
    }
  }

  const OUTSIDE := Mode(None, false)

  /** Whether the matcher is inside quotes from a mode on until the end. */
  ghost predicate StaysQuoted(m: Mode, s: string) {
    forall k :: 0 <= k <= |s| ==> Through(m, s[..k]).quote.Some?
  }

  lemma {:induction false} StayingQuotedHides(m: Mode, s: string)
    requires StaysQuoted(m, s)
    ensures Seen(m, s) == []
    decreases |s|
  {
    hide NextMode;
    assert s[..0] == [] && Through(m, []).quote.Some?;
    if s == [] {
    } else {
      var next := NextMode(m, s[0]);
      forall k | 0 <= k <= |s| - 1 ensures Through(next, s[1..][..k]).quote.Some? {
        assert s[..k + 1][1..] == s[1..][..k];
        assert Through(m, s[..k + 1]).quote.Some?;
      }
      StayingQuotedHides(next, s[1..]);
    }
  }

  /** Without the quote and without backslashes a quoted text stays open. */
  lemma PlainTextStaysQuoted(quote: char, s: string)
    requires quote !in s && '\\' !in s
    ensures StaysQuoted(Mode(Some(quote), false), s)
  {
    forall k | 0 <= k <= |s| ensures Through(Mode(Some(quote), false), s[..k]).quote.Some? {
      PlainTextKeepsMode(quote, s[..k]);
    }
  }

  lemma {:induction false} PlainTextKeepsMode(quote: char, s: string)
    requires quote !in s && '\\' !in s
    ensures Through(Mode(Some(quote), false), s) == Mode(Some(quote), false)
  {
    if s == [] {
    } else {
      PlainTextKeepsMode(quote, s[1..]);
    }
  }

  /** A quote that is never closed hides all that follows it: only what stands before it is matched. */
  lemma OpenQuoteIsAccepted(text: string, before: string, quote: char, after: string)
    requires Content(text) == before + [quote] + after && Through(OUTSIDE, before) == OUTSIDE
    requires IsQuote(quote) && StaysQuoted(Mode(Some(quote), false), after)
    ensures Judge([], MarksOf(text)).Balanced? <==> Dyck(Unquoted(before))
  {
    hide MarksOf, Judge, Content, Seen, Quoted, Dyck, Through, StaysQuoted;
    var rest := [quote] + after;
    assert before + [quote] + after == before + rest;
    SeenConcat(OUTSIDE, before, rest);
    SeenIsUnquoted(before, quote);
    SeenIsUnquoted(rest, quote);
    SeenIsUnquoted(before + rest, quote);
    SeenIsUnquoted(after, quote);
    StayingQuotedHides(Mode(Some(quote), false), after);
    assert rest[1..] == after && Unquoted(rest) == [];
    assert Unquoted(before + rest) == Unquoted(before) + [] == Unquoted(before);
    AcceptsExactlyDyck(text);
  }

  lemma ContentStep(s: string)
    requires s != []
    ensures Content(s) == (if IsLineBreak(s[0]) then [] else [s[0]]) + Content(s[1..])
  {}

  /** So an open quote goes on over a line break, and an open bracket after it is not missed. */
  lemma QuoteCrossesLines()
    ensures Judge([], MarksOf("'\n{")).Balanced?
  {
    hide MarksOf, Judge, Content;
    ContentStep("'\n{");
    ContentStep("\n{");
    ContentStep("{");
    NoContent();
    assert "'\n{"[1..] == "\n{" && "\n{"[1..] == "{" && "{"[1..] == [];
    assert Content("'\n{") == "'{";
    PlainTextStaysQuoted('\'', "{");
    OpenQuoteIsAccepted("'\n{", [], '\'', "{");
    EmptyIsDyck();
  }

  lemma NoContent()
    ensures Content([]) == []
  {}

  /** A backslash that ends a quoted line hides the quote that starts the next one. */
  lemma EscapeCrossesLines()
    ensures Judge([], MarksOf("'\\\n'{")).Balanced?
  {
    hide MarksOf, Judge, Content, Quoted;
    ContentStep("'\\\n'{");
    ContentStep("\\\n'{");
    ContentStep("\n'{");
    ContentStep("'{");
    ContentStep("{");
    NoContent();
    assert "'\\\n'{"[1..] == "\\\n'{" && "\\\n'{"[1..] == "\n'{" && "\n'{"[1..] == "'{";
    assert "'{"[1..] == "{" && "{"[1..] == [];
    assert Content("'\\\n'{") == "'\\'{";
    EscapedQuote();
    AcceptsExactlyDyck("'\\\n'{");
  }

  lemma EscapedQuote()
    ensures Unquoted("'\\'{") == []
  {
    var rest := "\\'{";
    assert "'\\'{"[1..] == rest && rest[2..] == "{";
    OpenQuoteHides("{", '\'');
  }
}
