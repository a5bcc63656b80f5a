/**
  The TOML-aware line scanner of `configpin.py`: which multi-line string is open after a line, and
  the filter that keeps a file's configuration-carrying lines for a review.  Both are proved
  against one character automaton run over the whole text.
*/
module LineScanner {
  import opened Common

  // ---------------------------------------------------------------------------------------------
  // The automaton
  // ---------------------------------------------------------------------------------------------

  predicate IsQuote(c: char) {
    c == '"' || c == '\''
  }

  /**
    Where a scan of TOML text stands.  `Opening` has seen one or two quotes at the start of a
    string; `Multi` has seen `seen` quotes that may turn out to close it.
  */
  datatype State =
    | Plain
    | Comment
    | Opening(quote: char, doubled: bool)
    | Single(quote: char)
    | SingleEscape
    | Multi(quote: char, seen: nat)
    | MultiEscape

  function Next(state: State, c: char): State {
    match state
    case Plain => if c == '#' then Comment else if IsQuote(c) then Opening(c, false) else Plain
    case Comment => if c == '\n' then Plain else Comment
    case Opening(quote, doubled) =>
      if c == quote then (if doubled then Multi(quote, 0) else Opening(quote, true))
      else if doubled then (if c == '#' then Comment else if IsQuote(c) then Opening(c, false) else Plain)
      else InSingle(quote, c)
    case Single(quote) => InSingle(quote, c)
    case SingleEscape => if c == '\n' then Plain else Single('"')
    case Multi(quote, seen) =>
      if c == quote then (if seen >= 2 then Plain else Multi(quote, seen + 1))
      else if quote == '"' && c == '\\' then MultiEscape
      else Multi(quote, 0)
    case MultiEscape => Multi('"', 0)
  }

  /** A single-line string ends at its quote, or unterminated at the end of the line. */
  function InSingle(quote: char, c: char): State {
    if c == '\n' || c == quote then Plain
    else if quote == '"' && c == '\\' then SingleEscape
    else Single(quote)
  }

  function Run(state: State, text: string): State
    decreases text
  {
    if text == "" then state else Run(Next(state, text[0]), text[1..])
  }

  /** The state at the start of the next line, after `line` and its line end. */
  function After(state: State, line: string): State
    decreases line
  {
    if line == "" then Next(state, '\n') else After(Next(state, line[0]), line[1..])
  }

  function StartOf(open: Option<char>): State {
    match open
    case None => Plain
    case Some(quote) => Multi(quote, 0)
  }

  function DelimiterOf(state: State): Option<char> {
    match state
    case Multi(quote, _) => Some(quote)
    case MultiEscape => Some('"')
    case _ => None
  }

  lemma {:induction false} AfterIsRun(state: State, line: string)
    ensures After(state, line) == Run(state, line + "\n")
    decreases line
  {
    if line == "" {
      assert ("" + "\n")[1..] == "";
      assert Run(state, "\n") == Run(Next(state, '\n'), "");
    } else {
      assert (line + "\n")[1..] == line[1..] + "\n";
      AfterIsRun(Next(state, line[0]), line[1..]);
    }
  }

  lemma {:induction false} RunAppend(state: State, a: string, b: string)
    ensures Run(state, a + b) == Run(Run(state, a), b)
    decreases a
  {
    if a == "" {
      assert a + b == b;
    } else {
      assert (a + b)[1..] == a[1..] + b;
      RunAppend(Next(state, a[0]), a[1..], b);
    }
  }

  predicate ValidState(state: State) {
    match state
    case Opening(quote, _) => IsQuote(quote)
    case Single(quote) => IsQuote(quote)
    case Multi(quote, seen) => IsQuote(quote) && seen <= 2
    case _ => true
  }

  /** At the start of a line the scan is either in plain text or freshly inside a multi-line string. */
  lemma {:induction false} AfterIsStart(state: State, line: string)
    requires ValidState(state)
    ensures After(state, line) == StartOf(DelimiterOf(After(state, line)))
    ensures DelimiterOf(After(state, line)).Some? ==> IsQuote(DelimiterOf(After(state, line)).value)
    decreases line
  {
    if line != "" {
      AfterIsStart(Next(state, line[0]), line[1..]);
    }
  }

  // ---------------------------------------------------------------------------------------------
  // One line
  // ---------------------------------------------------------------------------------------------

  predicate TripleAt(line: string, quote: char, i: nat) {
    i + 3 <= |line| && line[i] == line[i + 1] == line[i + 2] == quote
  }

  /** The first `'''` or `"""` at or after `i`. */
  function FindTriple(line: string, quote: char, i: nat): (found: Option<nat>)
    ensures found.Some? ==> i <= found.value && TripleAt(line, quote, found.value)
    decreases |line| - i
  {
    if |line| <= i then None else if TripleAt(line, quote, i) then Some(i) else FindTriple(line, quote, i + 1)
  }

  lemma AfterStep(state: State, line: string, i: nat)
    requires i < |line|
    ensures After(state, line[i..]) == After(Next(state, line[i]), line[i + 1..])
  {
    assert line[i..][1..] == line[i + 1..];
  }

  /** A quote that starts no triple closes nothing: the count it starts comes to nothing. */
  lemma PassQuote(line: string, quote: char, i: nat)
    requires i < |line| && line[i] == quote && !TripleAt(line, quote, i)
    requires IsQuote(quote)
    ensures After(Multi(quote, 0), line[i..]) == After(Multi(quote, 0), line[i + 1..])
  {
    AfterStep(Multi(quote, 0), line, i);
    if i + 1 < |line| {
      AfterStep(Multi(quote, 0), line, i + 1);
      AfterStep(Multi(quote, 1), line, i + 1);
      if line[i + 1] == quote && i + 2 < |line| {
        AfterStep(Multi(quote, 1), line, i + 2);
        AfterStep(Multi(quote, 2), line, i + 2);
      }
    }
  }

  lemma CloseTriple(line: string, quote: char, i: nat)
    requires TripleAt(line, quote, i)
    ensures After(Multi(quote, 0), line[i..]) == After(Plain, line[i + 3..])
  {
    AfterStep(Multi(quote, 0), line, i);
    AfterStep(Multi(quote, 1), line, i + 1);
    AfterStep(Multi(quote, 2), line, i + 2);
  }

  lemma OpenTriple(line: string, quote: char, i: nat)
    requires TripleAt(line, quote, i) && IsQuote(quote)
    ensures After(Plain, line[i..]) == After(Multi(quote, 0), line[i + 3..])
  {
    AfterStep(Plain, line, i);
    AfterStep(Opening(quote, false), line, i + 1);
    AfterStep(Opening(quote, true), line, i + 2);
  }

  lemma OpenSingle(line: string, quote: char, i: nat)
    requires i < |line| && line[i] == quote && IsQuote(quote) && !TripleAt(line, quote, i)
    ensures After(Plain, line[i..]) == After(Single(quote), line[i + 1..])
  {
    AfterStep(Plain, line, i);
    if i + 1 < |line| {
      AfterStep(Opening(quote, false), line, i + 1);
      AfterStep(Single(quote), line, i + 1);
      if line[i + 1] == quote && i + 2 < |line| {
        AfterStep(Opening(quote, true), line, i + 2);
        AfterStep(Plain, line, i + 2);
      }
    }
  }

  lemma {:induction false} LiteralRun(line: string, i: nat)
    requires i <= |line|
    ensures After(Multi('\'', 0), line[i..]) ==
            match FindTriple(line, '\'', i)
            case None => Multi('\'', 0)
            case Some(j) => After(Plain, line[j + 3..])
    decreases |line| - i
  {
    if i < |line| {
      if TripleAt(line, '\'', i) {
        CloseTriple(line, '\'', i);
      } else {
        if line[i] == '\'' {
          PassQuote(line, '\'', i);
        } else {
          AfterStep(Multi('\'', 0), line, i);
        }
        LiteralRun(line, i + 1);
      }
    }
  }

  lemma {:induction false} CommentRun(text: string)
    requires '\n' !in text
    ensures After(Comment, text) == Plain
    decreases text
  {
    if text != "" {
      assert text[0] in text && forall c :: c in text[1..] ==> c in text;
      CommentRun(text[1..]);
    }
  }

  /** Outside strings: a comment takes the rest of the line, and what is neither it nor a quote one character. */
  lemma PlainStep(line: string, i: nat)
    requires i < |line| && '\n' !in line && !IsQuote(line[i])
    ensures After(Plain, line[i..]) == if line[i] == '#' then Plain else After(Plain, line[i + 1..])
  {
    AfterStep(Plain, line, i);
    CommentRun(line[i + 1..]);
  }

  lemma AfterNothing(open: Option<char>)
    requires open.Some? ==> IsQuote(open.value)
    ensures After(StartOf(open), "") == StartOf(open)
    ensures DelimiterOf(StartOf(open)) == open
  {
  }

  /** `_open_multiline_after`: the delimiter open at the end of `line`, given the one open at its start. */
  method OpenMultilineAfter(line: string, openBefore: Option<char>) returns (open: Option<char>)
    requires '\n' !in line
    requires openBefore.Some? ==> IsQuote(openBefore.value)
    ensures open == DelimiterOf(After(StartOf(openBefore), line))
    ensures open.Some? ==> IsQuote(open.value)
  {
    hide After, Next, FindTriple;
    open := openBefore;
    ghost var final := After(StartOf(openBefore), line);
    AfterIsStart(StartOf(openBefore), line);
    var i, n := 0, |line|;
    assert line[0..] == line;
    while i < n
      invariant open.Some? ==> IsQuote(open.value)
      invariant i <= n ==> final == After(StartOf(open), line[i..])
      invariant i > n ==> final == StartOf(open)
      decreases n - i
    {
      AfterNothing(open);
      if open == Some('\'') {
        var found := FindTriple(line, '\'', i);
        LiteralRun(line, i);
        if found.None? {
          return;
        }
        i, open := found.value + 3, None;
      } else if open.Some? {
        i, open := SkipMultiBasic(line, i);
        if open.Some? {
          return;
        }
      } else {
        var c := line[i];
        if c == '#' {
          PlainStep(line, i);
          AfterNothing(None);
          return None;
        }
        if TripleAt(line, '"', i) || TripleAt(line, '\'', i) {
          OpenTriple(line, c, i);
          open := Some(c);
          i := i + 3;
        } else if IsQuote(c) {
          i := SkipSingle(line, i);
        } else {
          PlainStep(line, i);
          i := i + 1;
        }
      }
    }
    assert i == n ==> line[i..] == "";
    AfterNothing(open);
  }

  /** Inside a multi-line basic string: on to just past its close, or past the end of the line. */
  method SkipMultiBasic(line: string, start: nat) returns (i: nat, open: Option<char>)
    requires start < |line|
    ensures open.None? ==> start < i <= |line| && After(Multi('"', 0), line[start..]) == After(Plain, line[i..])
    ensures open.Some? ==> open == Some('"') && After(Multi('"', 0), line[start..]) == Multi('"', 0)
  {
    i, open := start, Some('"');
    var n := |line|;
    while i < n
      invariant start <= i
      invariant open == Some('"')
      invariant i <= n ==> After(Multi('"', 0), line[start..]) == After(Multi('"', 0), line[i..])
      invariant i > n ==> After(Multi('"', 0), line[start..]) == Multi('"', 0)
      decreases n - i
    {
      AfterStep(Multi('"', 0), line, i);
      if line[i] == '\\' {
        if i + 1 < n {
          AfterStep(MultiEscape, line, i + 1);
        }
        i := i + 2;
      } else if TripleAt(line, '"', i) {
        CloseTriple(line, '"', i);
        i, open := i + 3, None;
        break;
      } else {
        if line[i] == '"' {
          PassQuote(line, '"', i);
        }
        i := i + 1;
      }
    }
  }

  /** A single-line string: on to just past its close; an unterminated one ends with the line. */
  method SkipSingle(line: string, start: nat) returns (i: nat)
    requires start < |line| && IsQuote(line[start]) && !TripleAt(line, line[start], start)
    requires '\n' !in line
    ensures start < i
    ensures i <= |line| ==> After(Plain, line[start..]) == After(Plain, line[i..])
    ensures i > |line| ==> After(Plain, line[start..]) == Plain
  {
    var c, n := line[start], |line|;
    OpenSingle(line, c, start);
    var j := start + 1;
    while j < n && line[j] != c
      invariant start < j
      invariant j <= n ==> After(Plain, line[start..]) == After(Single(c), line[j..])
      invariant j > n ==> After(Plain, line[start..]) == Plain
      decreases n - j
    {
      AfterStep(Single(c), line, j);
      assert line[j] in line;
      if c == '"' && line[j] == '\\' {
        if j + 1 < n {
          assert line[j + 1] in line;
          AfterStep(SingleEscape, line, j + 1);
        }
        j := j + 2;
      } else {
        j := j + 1;
      }
    }
    if j < n {
      AfterStep(Single(c), line, j);
    }
    i := j + 1;
  }

  // ---------------------------------------------------------------------------------------------
  // Many lines
  // ---------------------------------------------------------------------------------------------

  /** The text of `lines`, each with its line end. */
  function TextOf(lines: seq<string>): string {
    if lines == [] then "" else lines[0] + "\n" + TextOf(lines[1..])
  }

  /** Line by line: the delimiter open after all of `lines`. */
  function OpenAfterLines(open: Option<char>, lines: seq<string>): Option<char>
    decreases lines
  {
    if lines == [] then open
    else OpenAfterLines(DelimiterOf(After(StartOf(open), lines[0])), lines[1..])
  }

  /** Folding the one-line scan over the lines is one run of the automaton over the whole text. */
  lemma {:induction false} FoldIsOneRun(open: Option<char>, lines: seq<string>)
    requires open.Some? ==> IsQuote(open.value)
    ensures Run(StartOf(open), TextOf(lines)) == StartOf(OpenAfterLines(open, lines))
    decreases lines
  {
    if lines != [] {
      var start := StartOf(open);
      var next := DelimiterOf(After(start, lines[0]));
      AfterIsStart(start, lines[0]);
      AfterIsRun(start, lines[0]);
      RunAppend(start, lines[0] + "\n", TextOf(lines[1..]));
      FoldIsOneRun(next, lines[1..]);
    }
  }

  predicate IsSpace(c: char) {
    c as int in {0x09, 0x0A, 0x0B, 0x0C, 0x0D, 0x1C, 0x1D, 0x1E, 0x1F, 0x20, 0x85, 0xA0, 0x1680,
                 0x2028, 0x2029, 0x202F, 0x205F, 0x3000}
    || 0x2000 <= c as int <= 0x200A
  }

  function RStrip(line: string): (stripped: string)
    ensures stripped <= line
    ensures stripped == "" || !IsSpace(stripped[|stripped| - 1])
  {
    if line != "" && IsSpace(line[|line| - 1]) then RStrip(line[..|line| - 1]) else line
  }

  function LStrip(line: string): string {
    if line != "" && IsSpace(line[0]) then LStrip(line[1..]) else line
  }

  function Strip(line: string): string {
    LStrip(RStrip(line))
  }

  lemma {:induction false} LStripBounds(line: string) returns (i: nat)
    ensures i <= |line| && LStrip(line) == line[i..]
    ensures forall c :: c in line[..i] ==> IsSpace(c)
    ensures i < |line| ==> !IsSpace(line[i])
    decreases line
  {
    i := 0;
    if line != "" && IsSpace(line[0]) {
      var n := LStripBounds(line[1..]);
      i := n + 1;
      assert line[..i] == [line[0]] + line[1..][..n];
    }
  }

  /** Stripping takes off space at both ends, as much of it as there is, and nothing else. */
  lemma StripBounds(line: string) returns (i: nat, j: nat)
    ensures i <= j <= |line| && Strip(line) == line[i..j]
    ensures (forall c :: c in line[..i] ==> IsSpace(c)) && forall c :: c in line[j..] ==> IsSpace(c)
    ensures i < j ==> !IsSpace(line[i]) && !IsSpace(line[j - 1])
  {
    j := |RStrip(line)|;
    RStripLeavesBlank(line);
    i := LStripBounds(line[..j]);
    assert RStrip(line) == line[..j] && line[..j][..i] == line[..i];
  }

  /** Blank, or a comment taking up the whole line. */
  predicate IsNoise(line: string) {
    LStrip(line) == "" || LStrip(line)[0] == '#'
  }

  /** A table header: `[`, no `]` before the end, then `]` or `]]`. */
  predicate IsSection(text: string) {
    && |text| >= 2 && text[0] == '['
    && (|| (text[|text| - 1] == ']' && ']' !in text[..|text| - 1])
        || (text[|text| - 1] == ']' && text[|text| - 2] == ']' && ']' !in text[..|text| - 2]))
  }

  /** The configuration-carrying lines, each with the table it sits under. */
  function SignificantFrom(section: string, open: Option<char>, lines: seq<string>): seq<(string, string)>
    decreases lines
  {
    if lines == [] then []
    else if open.Some? then
      [(section, lines[0])] + SignificantFrom(section, DelimiterOf(After(StartOf(open), lines[0])), lines[1..])
    else
      var line := RStrip(lines[0]);
      if IsNoise(line) then SignificantFrom(section, None, lines[1..])
      else
        var here := if IsSection(Strip(line)) then Strip(line) else section;
        [(here, line)] + SignificantFrom(here, DelimiterOf(After(Plain, line)), lines[1..])
  }

  predicate ValidLines(lines: seq<string>) {
    forall i :: 0 <= i < |lines| ==> '\n' !in lines[i]
  }

  lemma Regroup(before: seq<(string, string)>, one: (string, string), after: seq<(string, string)>)
    ensures before + ([one] + after) == (before + [one]) + after
  {
  }

  lemma SignificantUnfold(section: string, open: Option<char>, lines: seq<string>)
    requires lines != []
    ensures var line := RStrip(lines[0]);
      var here := if IsSection(Strip(line)) then Strip(line) else section;
      SignificantFrom(section, open, lines) ==
        if open.Some? then
          [(section, lines[0])] + SignificantFrom(section, DelimiterOf(After(StartOf(open), lines[0])), lines[1..])
        else if IsNoise(line) then SignificantFrom(section, None, lines[1..])
        else [(here, line)] + SignificantFrom(here, DelimiterOf(After(Plain, line)), lines[1..])
  {
  }

  /** `_significant`, over the lines of the text. */
  method Significant(lines: seq<string>) returns (out: seq<(string, string)>)
    requires ValidLines(lines)
    ensures out == SignificantFrom("", None, lines)
  {
    hide RStrip, IsNoise, IsSection, Strip, After;
    out := [];
    var section: string, open: Option<char> := "", None;
    assert lines[0..] == lines && SignificantFrom("", None, []) == [];
    for i := 0 to |lines|
      invariant open.Some? ==> IsQuote(open.value)
      invariant SignificantFrom("", None, lines) == out + SignificantFrom(section, open, lines[i..])
    {
      hide SignificantFrom;
      var raw := lines[i];
      assert lines[i..][0] == raw && lines[i..][1..] == lines[i + 1..];
      SignificantUnfold(section, open, lines[i..]);
      var line := raw;
      if open.None? {
        line := RStrip(raw);
        assert forall c :: c in line ==> c in raw;
        if IsNoise(line) {
          continue;
        }
        if IsSection(Strip(line)) {
          section := Strip(line);
        }
      }
      Regroup(out, (section, line), SignificantFrom(section, DelimiterOf(After(StartOf(open), line)), lines[i + 1..]));
      out := out + [(section, line)];
      open := OpenMultilineAfter(line, open);
    }
    assert lines[|lines|..] == [];
  }

  lemma {:induction false} TrailingSpaceIgnored(state: State, line: string, space: char)
    requires ValidState(state) && IsSpace(space)
    ensures After(state, line + [space]) == After(state, line)
    decreases line
  {
    if line == "" {
      assert ([space])[1..] == "" && line + [space] == [space];
      assert After(state, [space]) == Next(Next(state, space), '\n');
    } else {
      assert (line + [space])[1..] == line[1..] + [space];
      TrailingSpaceIgnored(Next(state, line[0]), line[1..], space);
    }
  }

  lemma {:induction false} RStripKeepsState(state: State, line: string)
    requires ValidState(state)
    ensures After(state, RStrip(line)) == After(state, line)
    decreases line
  {
    if line != "" && IsSpace(line[|line| - 1]) {
      RStripKeepsState(state, line[..|line| - 1]);
      TrailingSpaceIgnored(state, line[..|line| - 1], line[|line| - 1]);
      assert line[..|line| - 1] + [line[|line| - 1]] == line;
    }
  }

  lemma {:induction false} NoiseKeepsPlain(line: string)
    requires '\n' !in line && IsNoise(line)
    ensures After(Plain, line) == Plain
    decreases line
  {
    if line != "" {
      assert line[0] in line && forall c :: c in line[1..] ==> c in line;
      if IsSpace(line[0]) {
        NoiseKeepsPlain(line[1..]);
      } else {
        CommentRun(line[1..]);
      }
    }
  }

  /** The filter's own idea of the open delimiter is the automaton's, dropped lines included. */
  lemma SignificantStep(section: string, open: Option<char>, line: string, rest: seq<string>)
    requires '\n' !in line && (open.Some? ==> IsQuote(open.value))
    ensures open.None? && IsNoise(RStrip(line)) ==>
      SignificantFrom(section, open, [line] + rest)
        == SignificantFrom(section, DelimiterOf(After(StartOf(open), line)), rest)
    ensures open.Some? ==>
      SignificantFrom(section, open, [line] + rest)
        == [(section, line)] + SignificantFrom(section, DelimiterOf(After(StartOf(open), line)), rest)
    ensures open.None? && !IsNoise(RStrip(line)) ==>
      var here := if IsSection(Strip(RStrip(line))) then Strip(RStrip(line)) else section;
      SignificantFrom(section, open, [line] + rest)
        == [(here, RStrip(line))] + SignificantFrom(here, DelimiterOf(After(StartOf(open), line)), rest)
  {
    assert ([line] + rest)[1..] == rest;
    RStripKeepsState(Plain, line);
    if open.None? && IsNoise(RStrip(line)) {
      assert forall c :: c in RStrip(line) ==> c in line;
      NoiseKeepsPlain(RStrip(line));
    }
  }

  function SectionHead(section: string, open: Option<char>, raw: string): string {
    var line := RStrip(raw);
    if open.None? && !IsNoise(line) && IsSection(Strip(line)) then Strip(line) else section
  }

  /** What one line adds to the kept lines. */
  function KeptHead(section: string, open: Option<char>, raw: string): seq<(string, string)> {
    if open.Some? then [(section, raw)]
    else if IsNoise(RStrip(raw)) then []
    else [(SectionHead(section, open, raw), RStrip(raw))]
  }

  lemma SignificantHead(section: string, open: Option<char>, line: string, rest: seq<string>)
    requires '\n' !in line && (open.Some? ==> IsQuote(open.value))
    ensures SignificantFrom(section, open, [line] + rest) == KeptHead(section, open, line)
      + SignificantFrom(SectionHead(section, open, line), DelimiterOf(After(StartOf(open), line)), rest)
  {
    SignificantStep(section, open, line, rest);
  }

  /** The table a prefix of the lines leaves the scan under. */
  function SectionAfter(section: string, open: Option<char>, lines: seq<string>): string
    decreases lines
  {
    if lines == [] then section
    else
      SectionAfter(SectionHead(section, open, lines[0]), DelimiterOf(After(StartOf(open), lines[0])), lines[1..])
  }

  lemma {:induction false} SignificantSplit(section: string, open: Option<char>, lines: seq<string>, rest: seq<string>)
    requires ValidLines(lines) && (open.Some? ==> IsQuote(open.value))
    ensures SignificantFrom(section, open, lines + rest) ==
            SignificantFrom(section, open, lines)
              + SignificantFrom(SectionAfter(section, open, lines), OpenAfterLines(open, lines), rest)
    decreases lines
  {
    hide KeptHead, SectionHead, After, Next;
    if lines == [] {
      assert lines + rest == rest;
    } else {
      var next := DelimiterOf(After(StartOf(open), lines[0]));
      AfterIsStart(StartOf(open), lines[0]);
      assert lines + rest == [lines[0]] + (lines[1..] + rest);
      assert lines == [lines[0]] + lines[1..];
      SignificantHead(section, open, lines[0], lines[1..] + rest);
      SignificantHead(section, open, lines[0], lines[1..]);
      SignificantSplit(SectionHead(section, open, lines[0]), next, lines[1..], rest);
    }
  }

  /**
    Line `k` of a text, whole text scanned by the automaton: inside a multi-line string it is kept
    verbatim and heads no table; outside one it is kept, trailing space aside, unless it is noise.
  */
  lemma KeptExactly(lines: seq<string>, k: nat)
    requires ValidLines(lines) && k < |lines|
    ensures
      var before := SignificantFrom("", None, lines[..k]);
      var upTo := SignificantFrom("", None, lines[..k + 1]);
      var table := SectionAfter("", None, lines[..k]);
      match Run(Plain, TextOf(lines[..k]))
      case Multi(_, _) => upTo == before + [(table, lines[k])]
      case _ =>
        var line := RStrip(lines[k]);
        && Run(Plain, TextOf(lines[..k])) == Plain
        && upTo == before +
             (if IsNoise(line) then []
              else [(if IsSection(Strip(line)) then Strip(line) else table, line)])
  {
    var open := OpenAfterLines(None, lines[..k]);
    FoldIsOneRun(None, lines[..k]);
    OpenAfterLinesValid(None, lines[..k]);
    SignificantSplit("", None, lines[..k], [lines[k]]);
    assert lines[..k] + [lines[k]] == lines[..k + 1];
    SignificantStep(SectionAfter("", None, lines[..k]), open, lines[k], []);
    assert [lines[k]] + [] == [lines[k]];
  }

  lemma {:induction false} OpenAfterLinesValid(open: Option<char>, lines: seq<string>)
    requires open.Some? ==> IsQuote(open.value)
    ensures OpenAfterLines(open, lines).Some? ==> IsQuote(OpenAfterLines(open, lines).value)
    decreases lines
  {
    if lines != [] {
      AfterIsStart(StartOf(open), lines[0]);
      OpenAfterLinesValid(DelimiterOf(After(StartOf(open), lines[0])), lines[1..]);
    }
  }

  function LinesOf(kept: seq<(string, string)>): seq<string> {
    seq(|kept|, i requires 0 <= i < |kept| => kept[i].1)
  }

  lemma LinesOfCons(section: string, line: string, rest: seq<(string, string)>)
    ensures LinesOf([(section, line)] + rest) == [line] + LinesOf(rest)
    ensures LinesOf([(section, line)] + rest)[1..] == LinesOf(rest)
  {
  }

  lemma {:induction false} SignificantFromIdempotent(section: string, open: Option<char>, lines: seq<string>)
    requires ValidLines(lines) && (open.Some? ==> IsQuote(open.value))
    ensures SignificantFrom(section, open, LinesOf(SignificantFrom(section, open, lines)))
         == SignificantFrom(section, open, lines)
    decreases lines
  {
    if lines != [] {
      var line := if open.Some? then lines[0] else RStrip(lines[0]);
      assert forall c :: c in line ==> c in lines[0];
      if open.None? && IsNoise(line) {
        SignificantFromIdempotent(section, None, lines[1..]);
      } else {
        var here := if open.None? && IsSection(Strip(line)) then Strip(line) else section;
        var next := DelimiterOf(After(StartOf(open), line));
        AfterIsStart(StartOf(open), line);
        SignificantFromIdempotent(here, next, lines[1..]);
        var rest := SignificantFrom(here, next, lines[1..]);
        assert SignificantFrom(section, open, lines) == [(here, line)] + rest;
        LinesOfCons(here, line, rest);
        assert open.None? ==> RStrip(line) == line;
      }
    }
  }

  /** Filtering the kept lines again changes nothing, tables included. */
  lemma SignificantIdempotent(lines: seq<string>)
    requires ValidLines(lines)
    ensures var kept := SignificantFrom("", None, lines);
            SignificantFrom("", None, LinesOf(kept)) == kept
  {
    SignificantFromIdempotent("", None, lines);
  }

  /** The table attached to each kept line depends on the kept lines alone. */
  lemma TablesDependOnKeptLines(lines: seq<string>, others: seq<string>)
    requires ValidLines(lines) && ValidLines(others)
    requires LinesOf(SignificantFrom("", None, lines)) == LinesOf(SignificantFrom("", None, others))
    ensures SignificantFrom("", None, lines) == SignificantFrom("", None, others)
  {
    SignificantIdempotent(lines);
    SignificantIdempotent(others);
  }

  // ---------------------------------------------------------------------------------------------
  // What the kept lines carry
  // ---------------------------------------------------------------------------------------------

  /** A character a TOML reader takes notice of, and whether it is part of a string. */
  datatype Mark = Mark(c: char, quoted: bool)

  /** The next character is read inside a string, whatever it is. */
  predicate IsInside(state: State) {
    match state
    case Opening(_, doubled) => !doubled
    case Single(_) => true
    case SingleEscape => true
    case Multi(_, _) => true
    case MultiEscape => true
    case _ => false
  }

  /** What one character carries: comments and space outside strings nothing. */
  function MarkAt(state: State, c: char): seq<Mark> {
    if IsInside(state) || (state.Opening? && c == state.quote) then [Mark(c, true)]
    else if state == Comment || c == '#' || IsSpace(c) then []
    else [Mark(c, false)]
  }

  function LineMarks(state: State, line: string): seq<Mark>
    decreases line
  {
    if line == "" then [] else MarkAt(state, line[0]) + LineMarks(Next(state, line[0]), line[1..])
  }

  /** What a line adds to what a text carries: a line outside strings with nothing on it, nothing. */
  function Carried(open: Option<char>, marks: seq<Mark>): seq<seq<Mark>> {
    if open.None? && marks == [] then [] else [marks]
  }

  /** What a text carries, line by line. */
  function Carries(open: Option<char>, lines: seq<string>): seq<seq<Mark>>
    decreases lines
  {
    if lines == [] then []
    else
      Carried(open, LineMarks(StartOf(open), lines[0]))
        + Carries(DelimiterOf(After(StartOf(open), lines[0])), lines[1..])
  }

  /** The line ends in space that belongs to a string begun on it. */
  predicate EndsInQuotedSpace(line: string) {
    RStrip(line) != line && IsInside(Run(Plain, RStrip(line)))
  }

  /** No line that starts outside a multi-line string ends in space inside a string. */
  predicate NoQuotedSpaceAtEnds(open: Option<char>, lines: seq<string>)
    decreases lines
  {
    lines == [] ||
    ((open.None? ==> !EndsInQuotedSpace(lines[0]))
     && NoQuotedSpaceAtEnds(DelimiterOf(After(StartOf(open), lines[0])), lines[1..]))
  }

  lemma {:induction false} LineMarksAppend(state: State, a: string, b: string)
    ensures LineMarks(state, a + b) == LineMarks(state, a) + LineMarks(Run(state, a), b)
    decreases a
  {
    if a == "" {
      assert a + b == b;
    } else {
      assert (a + b)[1..] == a[1..] + b;
      LineMarksAppend(Next(state, a[0]), a[1..], b);
    }
  }

  predicate IsBlank(text: string) {
    forall c :: c in text ==> IsSpace(c)
  }

  lemma {:induction false} RStripLeavesBlank(line: string)
    ensures IsBlank(line[|RStrip(line)|..])
    decreases line
  {
    if line != "" && IsSpace(line[|line| - 1]) {
      var init := line[..|line| - 1];
      RStripLeavesBlank(init);
      assert line[|RStrip(line)|..] == init[|RStrip(line)|..] + [line[|line| - 1]];
    }
  }

  /** Space outside strings carries nothing. */
  lemma {:induction false} BlankOutsideCarriesNothing(state: State, text: string)
    requires !IsInside(state) && ValidState(state) && '\n' !in text && IsBlank(text)
    ensures LineMarks(state, text) == []
    decreases text
  {
    if text != "" {
      assert text[0] in text && forall c :: c in text[1..] ==> c in text;
      assert !IsSpace('"') && !IsSpace('\'');
      BlankOutsideCarriesNothing(Next(state, text[0]), text[1..]);
    }
  }

  lemma {:induction false} CommentCarriesNothing(text: string)
    requires '\n' !in text
    ensures LineMarks(Comment, text) == [] && Run(Comment, text) == Comment
    decreases text
  {
    if text != "" {
      assert text[0] in text && forall c :: c in text[1..] ==> c in text;
      CommentCarriesNothing(text[1..]);
    }
  }

  lemma SpaceStartsNothing(c: char)
    requires IsSpace(c)
    ensures c != '#' && !IsQuote(c)
  {
  }

  /** A line outside strings carries something exactly when it is not blank or a comment. */
  lemma {:induction false} NoiseCarriesNothingExactly(line: string)
    requires '\n' !in line
    ensures LineMarks(Plain, line) == [] <==> IsNoise(line)
    ensures IsNoise(line) ==> !IsInside(Run(Plain, line))
    decreases line
  {
    hide IsSpace;
    if line != "" {
      assert line[0] in line && forall c :: c in line[1..] ==> c in line;
      if IsSpace(line[0]) {
        SpaceStartsNothing(line[0]);
        NoiseCarriesNothingExactly(line[1..]);
      } else if line[0] == '#' {
        CommentCarriesNothing(line[1..]);
      }
    }
  }

  lemma {:induction false} RunKeepsValid(state: State, text: string)
    requires ValidState(state)
    ensures ValidState(Run(state, text))
    decreases text
  {
    if text != "" {
      RunKeepsValid(Next(state, text[0]), text[1..]);
    }
  }

  /** Taking the space off the end of a line loses something exactly when it was inside a string. */
  lemma StrippingLosesExactly(line: string)
    requires '\n' !in line
    ensures LineMarks(Plain, RStrip(line)) == LineMarks(Plain, line) <==> !EndsInQuotedSpace(line)
    ensures IsNoise(RStrip(line)) <==> IsNoise(line)
  {
    var kept, space := RStrip(line), line[|RStrip(line)|..];
    assert line == kept + space && forall c :: c in kept + space ==> c in line;
    RStripLeavesBlank(line);
    LineMarksAppend(Plain, kept, space);
    RunKeepsValid(Plain, kept);
    NoiseCarriesNothingExactly(line);
    NoiseCarriesNothingExactly(kept);
    if !IsInside(Run(Plain, kept)) {
      BlankOutsideCarriesNothing(Run(Plain, kept), space);
    } else if space != "" {
      assert |LineMarks(Run(Plain, kept), space)| > 0;
      assert kept != "";
      InsideIsNoNoise(kept, space);
    }
  }

  /** Where a string has begun, the line is no noise, with or without what follows. */
  lemma InsideIsNoNoise(kept: string, space: string)
    requires '\n' !in kept && '\n' !in space && IsInside(Run(Plain, kept))
    ensures !IsNoise(kept) && !IsNoise(kept + space)
  {
    NoiseCarriesNothingExactly(kept);
    NoiseCarriesNothingExactly(kept + space);
    LineMarksAppend(Plain, kept, space);
  }

  lemma CarriesHead(open: Option<char>, line: string, rest: seq<string>)
    ensures Carries(open, [line] + rest) ==
            Carried(open, LineMarks(StartOf(open), line)) + Carries(DelimiterOf(After(StartOf(open), line)), rest)
  {
    assert ([line] + rest)[1..] == rest;
  }

  /** One line, over kept lines and lines that follow: what it takes for both to carry the same. */
  lemma OneLineCarries(section: string, open: Option<char>, line: string, kept: seq<(string, string)>,
      rest: seq<string>)
    requires '\n' !in line && (open.Some? ==> IsQuote(open.value))
    ensures var next := DelimiterOf(After(StartOf(open), line));
      Carries(open, LinesOf(KeptHead(section, open, line) + kept)) == Carries(open, [line] + rest) <==>
        ((open.None? ==> !EndsInQuotedSpace(line)) && Carries(next, LinesOf(kept)) == Carries(next, rest))
  {
    hide IsNoise, EndsInQuotedSpace, RStrip, LinesOf;
    CarriesHead(open, line, rest);
    if open.Some? {
      LinesOfCons(section, line, kept);
      CarriesHead(open, line, LinesOf(kept));
      FirstDecides(LineMarks(StartOf(open), line), Carries(DelimiterOf(After(StartOf(open), line)), LinesOf(kept)),
                   LineMarks(StartOf(open), line), Carries(DelimiterOf(After(StartOf(open), line)), rest));
    } else {
      StrippingLosesExactly(line);
      NoiseCarriesNothingExactly(line);
      OneOpenLineCarries(section, line, kept, rest);
    }
  }

  lemma OneOpenLineCarries(section: string, line: string, kept: seq<(string, string)>, rest: seq<string>)
    requires '\n' !in line
    ensures var next := DelimiterOf(After(Plain, line));
      Carries(None, LinesOf(KeptHead(section, None, line) + kept)) == Carries(None, [line] + rest) <==>
        !EndsInQuotedSpace(line) && Carries(next, LinesOf(kept)) == Carries(next, rest)
  {
    hide IsNoise, EndsInQuotedSpace, LinesOf;
    var bare := RStrip(line);
    assert forall c :: c in bare ==> c in line;
    StrippingLosesExactly(line);
    NoiseCarriesNothingExactly(line);
    NoiseCarriesNothingExactly(bare);
    RStripKeepsState(Plain, line);
    CarriesHead(None, line, rest);
    if IsNoise(line) {
      NoiseKeepsPlain(line);
      assert [] + kept == kept;
    } else {
      LinesOfCons(SectionHead(section, None, line), bare, kept);
      CarriesHead(None, bare, LinesOf(kept));
      var next := DelimiterOf(After(Plain, line));
      FirstDecides(LineMarks(Plain, bare), Carries(next, LinesOf(kept)), LineMarks(Plain, line), Carries(next, rest));
    }
  }

  lemma {:induction false} KeptLinesCarryFrom(section: string, open: Option<char>, lines: seq<string>)
    requires ValidLines(lines) && (open.Some? ==> IsQuote(open.value))
    ensures Carries(open, LinesOf(SignificantFrom(section, open, lines))) == Carries(open, lines)
       <==> NoQuotedSpaceAtEnds(open, lines)
    decreases lines
  {
    if lines != [] {
      var line, rest := lines[0], lines[1..];
      var next := DelimiterOf(After(StartOf(open), line));
      var here := SectionHead(section, open, line);
      AfterIsStart(StartOf(open), line);
      assert lines == [line] + rest;
      SignificantHead(section, open, line, rest);
      KeptLinesCarryFrom(here, next, rest);
      OneLineCarries(section, open, line, SignificantFrom(here, next, rest), rest);
    }
  }

  lemma FirstDecides(a: seq<Mark>, x: seq<seq<Mark>>, b: seq<Mark>, y: seq<seq<Mark>>)
    ensures [a] + x == [b] + y <==> a == b && x == y
  {
    assert ([a] + x)[0] == a && ([b] + y)[0] == b;
    assert ([a] + x)[1..] == x && ([b] + y)[1..] == y;
  }

  /**
    What a review is shown carries all that the text does, exactly when no line that starts outside a
    multi-line string ends in space inside a string.
  */
  lemma KeptLinesCarryTheText(lines: seq<string>)
    requires ValidLines(lines)
    ensures Carries(None, LinesOf(SignificantFrom("", None, lines))) == Carries(None, lines)
       <==> NoQuotedSpaceAtEnds(None, lines)
  {
    KeptLinesCarryFrom("", None, lines);
  }

  /** So two such texts that show the same lines carry the same. */
  lemma SameKeptLinesSameText(lines: seq<string>, others: seq<string>)
    requires ValidLines(lines) && ValidLines(others)
    requires NoQuotedSpaceAtEnds(None, lines) && NoQuotedSpaceAtEnds(None, others)
    requires LinesOf(SignificantFrom("", None, lines)) == LinesOf(SignificantFrom("", None, others))
    ensures Carries(None, lines) == Carries(None, others)
  {
    KeptLinesCarryTheText(lines);
    KeptLinesCarryTheText(others);
  }

  /** Two texts that show the same lines and carry different strings: one has a space more at a line's end. */
  lemma QuotedSpaceIsNotShown()
    ensures var bare, spaced := ["x = \"\"\"a", "\"\"\""], ["x = \"\"\"a ", "\"\"\""];
      && SignificantFrom("", None, bare) == SignificantFrom("", None, spaced)
      && Carries(None, bare) != Carries(None, spaced)
  {
    var line, close := "x = \"\"\"a", ["\"\"\""];
    OpensWithoutSpace();
    assert "x = \"\"\"a " == line + " ";
    assert ["x = \"\"\"a", "\"\"\""] == [line] + close && ["x = \"\"\"a ", "\"\"\""] == [line + " "] + close;
    ASpaceMoreIsNotShown(line, close);
  }

  /** So it is for every line that opens a multi-line string and ends in what is no space. */
  lemma ASpaceMoreIsNotShown(line: string, rest: seq<string>)
    requires '\n' !in line && RStrip(line) == line && IsInside(Run(Plain, line))
    ensures SignificantFrom("", None, [line] + rest) == SignificantFrom("", None, [line + " "] + rest)
    ensures Carries(None, [line] + rest) != Carries(None, [line + " "] + rest)
  {
    hide IsNoise, IsSection, Strip;
    assert (line + " ")[..|line + " "| - 1] == line && IsSpace(' ');
    assert RStrip(line + " ") == line;
    TrailingSpaceIgnored(Plain, line, ' ');
    SignificantHead("", None, line, rest);
    SignificantHead("", None, line + " ", rest);
    InsideIsNoNoise(line, " ");
    CarriesHead(None, line, rest);
    CarriesHead(None, line + " ", rest);
    StrippingLosesExactly(line + " ");
    NoiseCarriesNothingExactly(line);
    NoiseCarriesNothingExactly(line + " ");
    var next := DelimiterOf(After(Plain, line));
    FirstDecides(LineMarks(Plain, line), Carries(next, rest), LineMarks(Plain, line + " "), Carries(next, rest));
  }

  lemma OpensWithoutSpace()
    ensures Run(Plain, "x = \"\"\"a") == Multi('"', 0)
  {
    RunAppend(Plain, "x = ", "\"\"\"a");
    assert "x = " + "\"\"\"a" == "x = \"\"\"a";
    assert "x = "[1..] == " = " && " = "[1..] == "= " && "= "[1..] == " " && " "[1..] == "";
    assert "\"\"\"a"[1..] == "\"\"a" && "\"\"a"[1..] == "\"a" && "\"a"[1..] == "a" && "a"[1..] == "";
    assert Run(Plain, " ") == Run(Plain, "") && Run(Plain, "= ") == Run(Plain, " ")
        && Run(Plain, " = ") == Run(Plain, "= ");
    assert Run(Multi('"', 0), "a") == Run(Multi('"', 0), "");
    assert Run(Opening('"', true), "\"a") == Run(Multi('"', 0), "a");
    assert Run(Opening('"', false), "\"\"a") == Run(Opening('"', true), "\"a");
  }

  // ---------------------------------------------------------------------------------------------
  // TOML's strings, as they are written
  // ---------------------------------------------------------------------------------------------

  /** The four kinds of string, by what stands between their quotes. */
  datatype StringToken =
    | BasicString(body: string)
    | LiteralString(body: string)
    | LongBasic(body: string)
    | LongLiteral(body: string)

  function QuoteOf(s: StringToken): char {
    if s.BasicString? || s.LongBasic? then '"' else '\''
  }

  function Three(quote: char): string {
    [quote, quote, quote]
  }

  function Written(s: StringToken): string {
    match s
    case BasicString(body) => "\"" + body + "\""
    case LiteralString(body) => "'" + body + "'"
    case LongBasic(body) => "\"\"\"" + body + "\"\"\""
    case LongLiteral(body) => "\'\'\'" + body + "\'\'\'"
  }

  /** A backslash takes the next character with it; apart from those, there is no quote. */
  predicate QuotesEscaped(body: string)
    decreases body
  {
    body == "" ||
    if body[0] == '\\' then |body| >= 2 && QuotesEscaped(body[2..]) else body[0] != '"' && QuotesEscaped(body[1..])
  }

  /** A backslash takes the next character with it; apart from those, no three quotes begin before the close. */
  predicate TriplesEscaped(body: string)
    decreases body
  {
    body == "" ||
    if body[0] == '\\' then |body| >= 2 && TriplesEscaped(body[2..])
    else !(Three('"') <= body + Three('"')) && TriplesEscaped(body[1..])
  }

  /** No three of the quote begin before the close. */
  predicate NoTriples(body: string)
    decreases body
  {
    body == "" || (!(Three('\'') <= body + Three('\'')) && NoTriples(body[1..]))
  }

  predicate WellWritten(s: StringToken) {
    match s
    case BasicString(body) => QuotesEscaped(body)
    case LiteralString(body) => '\'' !in body
    case LongBasic(body) => TriplesEscaped(body)
    case LongLiteral(body) => NoTriples(body)
  }

  /** Strings on one line end there. */
  predicate OnOneLine(s: StringToken) {
    s.LongBasic? || s.LongLiteral? || '\n' !in s.body
  }

  lemma RunCons(state: State, c: char, rest: string)
    ensures Run(state, [c] + rest) == Run(Next(state, c), rest)
  {
    assert ([c] + rest)[1..] == rest;
  }

  lemma {:induction false} BasicRuns(body: string)
    requires QuotesEscaped(body) && '\n' !in body
    ensures Run(Single('"'), body + "\"") == Plain
    decreases body
  {
    if body == "" {
      RunCons(Single('"'), '"', "");
      assert "" + "\"" == ['"'] + "";
    } else {
      assert body[0] in body && forall c :: c in body[1..] ==> c in body;
      assert body + "\"" == [body[0]] + (body[1..] + "\"");
      RunCons(Single('"'), body[0], body[1..] + "\"");
      if body[0] == '\\' {
        assert body[1] in body && forall c :: c in body[2..] ==> c in body;
        assert body[1..] + "\"" == [body[1]] + (body[2..] + "\"");
        RunCons(SingleEscape, body[1], body[2..] + "\"");
        BasicRuns(body[2..]);
      } else {
        BasicRuns(body[1..]);
      }
    }
  }

  lemma {:induction false} LiteralRuns(body: string)
    requires '\'' !in body && '\n' !in body
    ensures Run(Single('\''), body + "'") == Plain
    decreases body
  {
    if body == "" {
      RunCons(Single('\''), '\'', "");
      assert "" + "'" == ['\''] + "";
    } else {
      assert body[0] in body && forall c :: c in body[1..] ==> c in body;
      assert body + "'" == [body[0]] + (body[1..] + "'");
      RunCons(Single('\''), body[0], body[1..] + "'");
      LiteralRuns(body[1..]);
    }
  }

  /** A quote that begins no three of them leaves the scan where it was. */
  lemma QuotePassed(quote: char, text: string)
    requires IsQuote(quote) && |text| > 3 && text[0] == quote && !(Three(quote) <= text)
    ensures Run(Multi(quote, 0), text) == Run(Multi(quote, 0), text[1..])
  {
    assert text == [text[0]] + text[1..] && text[1..] == [text[1]] + text[2..] && text[2..] == [text[2]] + text[3..];
    RunCons(Multi(quote, 0), text[0], text[1..]);
    RunCons(Multi(quote, 0), text[1], text[2..]);
    RunCons(Multi(quote, 1), text[1], text[2..]);
    RunCons(Multi(quote, 1), text[2], text[3..]);
    RunCons(Multi(quote, 2), text[2], text[3..]);
    assert text[..3] == [text[0], text[1], text[2]];
  }

  lemma ThreeClose(quote: char)
    ensures Run(Multi(quote, 0), Three(quote)) == Plain
  {
    assert Three(quote) == [quote] + [quote, quote] && [quote, quote] == [quote] + [quote] && [quote] == [quote] + "";
    RunCons(Multi(quote, 0), quote, [quote, quote]);
    RunCons(Multi(quote, 1), quote, [quote]);
    RunCons(Multi(quote, 2), quote, "");
  }

  lemma {:induction false} LongLiteralRuns(body: string)
    requires NoTriples(body)
    ensures Run(Multi('\'', 0), body + Three('\'')) == Plain
    decreases body
  {
    if body == "" {
      assert body + Three('\'') == Three('\'');
      ThreeClose('\'');
    } else {
      var text := body + Three('\'');
      assert text[1..] == body[1..] + Three('\'') && text == [text[0]] + text[1..];
      LongLiteralRuns(body[1..]);
      if text[0] == '\'' {
        QuotePassed('\'', text);
      } else {
        RunCons(Multi('\'', 0), text[0], text[1..]);
      }
    }
  }

  lemma {:induction false} LongBasicRuns(body: string)
    requires TriplesEscaped(body)
    ensures Run(Multi('"', 0), body + Three('"')) == Plain
    decreases body
  {
    if body == "" {
      assert body + Three('"') == Three('"');
      ThreeClose('"');
    } else {
      var text := body + Three('"');
      assert text[1..] == body[1..] + Three('"') && text == [text[0]] + text[1..];
      if text[0] == '\\' {
        assert text[2..] == body[2..] + Three('"') && text[1..] == [text[1]] + text[2..];
        RunCons(Multi('"', 0), text[0], text[1..]);
        RunCons(MultiEscape, text[1], text[2..]);
        LongBasicRuns(body[2..]);
      } else {
        LongBasicRuns(body[1..]);
        if text[0] == '"' {
          QuotePassed('"', text);
        } else {
          RunCons(Multi('"', 0), text[0], text[1..]);
        }
      }
    }
  }

  lemma OpensSingle(quote: char, body: string)
    requires IsQuote(quote) && body != "" && body[0] != quote
    ensures Run(Plain, [quote] + body) == Run(Single(quote), body)
  {
    RunCons(Plain, quote, body);
    assert body == [body[0]] + body[1..];
    RunCons(Opening(quote, false), body[0], body[1..]);
    RunCons(Single(quote), body[0], body[1..]);
  }

  lemma OpensLong(quote: char, rest: string)
    requires IsQuote(quote)
    ensures Run(Plain, Three(quote) + rest) == Run(Multi(quote, 0), rest)
  {
    assert Three(quote) + rest == [quote] + ([quote] + ([quote] + rest));
    RunCons(Plain, quote, [quote] + ([quote] + rest));
    RunCons(Opening(quote, false), quote, [quote] + rest);
    RunCons(Opening(quote, true), quote, rest);
  }

  lemma EmptySingle(quote: char, rest: string)
    requires IsQuote(quote) && (rest == "" || rest[0] != quote)
    ensures Run(Plain, [quote, quote] + rest) == if rest == "" then Opening(quote, true) else Run(Plain, rest)
  {
    assert [quote, quote] + rest == [quote] + ([quote] + rest);
    RunCons(Plain, quote, [quote] + rest);
    RunCons(Opening(quote, false), quote, rest);
    if rest != "" {
      assert rest == [rest[0]] + rest[1..];
      RunCons(Opening(quote, true), rest[0], rest[1..]);
      RunCons(Plain, rest[0], rest[1..]);
    }
  }

  lemma ShortIsPassed(s: StringToken, rest: string)
    requires WellWritten(s) && OnOneLine(s) && s.body != "" && (s.BasicString? || s.LiteralString?)
    ensures Run(Plain, Written(s) + rest) == Run(Plain, rest)
  {
    hide Run, Next;
    var quote, body := QuoteOf(s), s.body;
    assert body[0] in body;
    assert Written(s) + rest == ([quote] + (body + [quote])) + rest;
    RunAppend(Plain, [quote] + (body + [quote]), rest);
    OpensSingle(quote, body + [quote]);
    if s.BasicString? {
      BasicRuns(body);
    } else {
      LiteralRuns(body);
    }
  }

  lemma LongIsPassed(s: StringToken, rest: string)
    requires WellWritten(s) && (s.LongBasic? || s.LongLiteral?)
    ensures Run(Plain, Written(s) + rest) == Run(Plain, rest)
  {
    hide Run, Next;
    var quote, body := QuoteOf(s), s.body;
    assert Written(s) + rest == (Three(quote) + (body + Three(quote))) + rest;
    RunAppend(Plain, Three(quote) + (body + Three(quote)), rest);
    OpensLong(quote, body + Three(quote));
    if s.LongBasic? {
      LongBasicRuns(body);
    } else {
      LongLiteralRuns(body);
    }
  }

  /** A string as TOML writes it is passed over whole, brackets, comment signs and all: the scan goes on after it. */
  lemma StringIsPassed(s: StringToken, rest: string)
    requires WellWritten(s) && OnOneLine(s) && rest != ""
    requires s.body == "" && |Written(s)| == 2 ==> rest[0] != QuoteOf(s)
    ensures Run(Plain, Written(s) + rest) == Run(Plain, rest)
  {
    if s.LongBasic? || s.LongLiteral? {
      LongIsPassed(s, rest);
    } else if s.body != "" {
      ShortIsPassed(s, rest);
    } else {
      assert Written(s) == [QuoteOf(s), QuoteOf(s)];
      EmptySingle(QuoteOf(s), rest);
    }
  }

  /** Outside strings a comment lasts to the end of its line, and any other character that is no quote is passed. */
  lemma OutsideIsPassed(c: char, comment: string, rest: string)
    requires c != '#' && c != '"' && c != '\'' && '\n' !in comment
    ensures Run(Plain, [c] + rest) == Run(Plain, rest)
    ensures Run(Plain, "#" + comment + "\n" + rest) == Run(Plain, rest)
  {
    RunCons(Plain, c, rest);
    assert "#" + comment + "\n" + rest == (['#'] + (comment + "\n")) + rest;
    RunAppend(Plain, ['#'] + (comment + "\n"), rest);
    RunCons(Plain, '#', comment + "\n");
    AfterIsRun(Comment, comment);
    CommentRun(comment);
  }

  /**
    A long string with nothing to close it is open after the line, whether it begins there or was open
    before; a quote after a backslash closes nothing, nor does a backslash at the end.
  */
  lemma OpenStringStaysOpen(quote: char, body: string)
    requires IsQuote(quote) && '\n' !in body
    requires if quote == '"' then TriplesEscaped(body + "\n") else NoTriples(body + "\n")
    ensures DelimiterOf(After(Plain, Three(quote) + body)) == Some(quote)
    ensures DelimiterOf(After(StartOf(Some(quote)), body)) == Some(quote)
  {
    AfterIsRun(Plain, Three(quote) + body);
    assert Three(quote) + body + "\n" == Three(quote) + (body + "\n");
    OpensLong(quote, body + "\n");
    AfterIsRun(Multi(quote, 0), body);
    AfterIsStart(Multi(quote, 0), body);
    StillLong(quote, body + "\n");
  }

  lemma {:induction false} StillSingle(quote: char, body: string)
    requires IsQuote(quote) && '\n' !in body && (if quote == '"' then QuotesEscaped(body) else quote !in body)
    ensures Run(Single(quote), body) == Single(quote)
    decreases body
  {
    if body != "" {
      assert body[0] in body && forall c :: c in body[1..] ==> c in body;
      assert body == [body[0]] + body[1..];
      RunCons(Single(quote), body[0], body[1..]);
      if quote == '"' && body[0] == '\\' {
        assert body[1] in body && forall c :: c in body[2..] ==> c in body;
        assert body[1..] == [body[1]] + body[2..];
        RunCons(SingleEscape, body[1], body[2..]);
        StillSingle(quote, body[2..]);
      } else {
        StillSingle(quote, body[1..]);
      }
    }
  }

  /** A single-line string that is not closed ends with its line. */
  lemma UnclosedEndsWithLine(quote: char, body: string)
    requires IsQuote(quote) && body != "" && '\n' !in body
    requires if quote == '"' then QuotesEscaped(body) else quote !in body
    ensures DelimiterOf(After(Plain, [quote] + body)) == None
  {
    assert body[0] in body;
    AfterIsRun(Plain, [quote] + body);
    RunAppend(Plain, [quote] + body, "\n");
    OpensSingle(quote, body);
    StillSingle(quote, body);
    RunCons(Single(quote), '\n', "");
    assert "\n" == ['\n'] + "";
  }

  lemma {:induction false} StillLong(quote: char, body: string)
    requires IsQuote(quote) && body != "" && body[|body| - 1] != quote
    requires if quote == '"' then TriplesEscaped(body) else NoTriples(body)
    ensures Run(Multi(quote, 0), body) == Multi(quote, 0)
    decreases body
  {
    assert body == [body[0]] + body[1..];
    RunCons(Multi(quote, 0), body[0], body[1..]);
    if quote == '"' && body[0] == '\\' {
      assert body[1..] == [body[1]] + body[2..];
      RunCons(MultiEscape, body[1], body[2..]);
      if body[2..] != "" {
        StillLong(quote, body[2..]);
      }
    } else if body[0] == quote {
      var more := body[1..];
      StillLong(quote, more);
      PassedBefore(quote, body);
    } else if |body| > 1 {
      StillLong(quote, body[1..]);
    }
  }

  lemma SplitThree(text: string)
    requires |text| > 2
    ensures text == [text[0]] + ([text[1]] + ([text[2]] + text[3..]))
              && text[1..] == [text[1]] + ([text[2]] + text[3..])
  {
  }

  lemma OneQuotePasses(quote: char, c: char, rest: string)
    requires IsQuote(quote) && c != quote
    ensures Run(Multi(quote, 0), [quote] + ([c] + rest)) == Run(Multi(quote, 0), [c] + rest)
  {
    RunCons(Multi(quote, 0), quote, [c] + rest);
    RunCons(Multi(quote, 1), c, rest);
    RunCons(Multi(quote, 0), c, rest);
  }

  lemma TwoQuotesPass(quote: char, c: char, rest: string)
    requires IsQuote(quote) && c != quote
    ensures Run(Multi(quote, 0), [quote] + ([quote] + ([c] + rest))) == Run(Multi(quote, 0), [quote] + ([c] + rest))
  {
    RunCons(Multi(quote, 0), quote, [quote] + ([c] + rest));
    RunCons(Multi(quote, 1), quote, [c] + rest);
    RunCons(Multi(quote, 2), c, rest);
    OneQuotePasses(quote, c, rest);
    RunCons(Multi(quote, 0), c, rest);
  }

  lemma ThirdIsNoQuote(quote: char, text: string)
    requires |text| > 2 && text[0] == text[1] == quote && !(Three(quote) <= text + Three(quote))
    ensures text[2] != quote
  {
    assert text[..3] == [text[0], text[1], text[2]] && text[..3] <= text + Three(quote);
  }

  lemma TwoQuotesPassed(quote: char, text: string)
    requires IsQuote(quote) && |text| > 2 && text[0] == text[1] == quote && text[2] != quote
    ensures Run(Multi(quote, 0), text) == Run(Multi(quote, 0), text[1..])
  {
    hide Run;
    SplitThree(text);
    TwoQuotesPass(quote, text[2], text[3..]);
  }

  lemma PassedBefore(quote: char, text: string)
    requires IsQuote(quote) && |text| > 1 && text[0] == quote && text[|text| - 1] != quote
    requires !(Three(quote) <= text + Three(quote))
    ensures Run(Multi(quote, 0), text) == Run(Multi(quote, 0), text[1..])
  {
    hide Run, Three;
    if text[1] == quote {
      ThirdIsNoQuote(quote, text);
      TwoQuotesPassed(quote, text);
    } else {
      assert text == [quote] + ([text[1]] + text[2..]) && text[1..] == [text[1]] + text[2..];
      OneQuotePasses(quote, text[1], text[2..]);
    }
  }

  predicate HeaderOf(text: string, name: string) {
    ']' !in name && (text == "[" + name + "]" || text == "[" + name + "]]")
  }

  /** A table header is brackets around anything without a closing one, the first of which may be part of it. */
  lemma SectionExactly(text: string)
    ensures IsSection(text) <==> exists name: string :: HeaderOf(text, name)
  {
    if IsSection(text) {
      if ']' !in text[..|text| - 1] {
        var name := text[1..|text| - 1];
        assert text == "[" + name + "]";
        assert forall c :: c in name ==> c in text[..|text| - 1];
        assert HeaderOf(text, name);
      } else {
        var name := text[1..|text| - 2];
        assert text == "[" + name + "]]";
        assert forall c :: c in name ==> c in text[..|text| - 2];
        assert HeaderOf(text, name);
      }
    }
    if name: string :| HeaderOf(text, name) {
      assert text == "[" + name + "]" ==> text[..|text| - 1] == "[" + name;
      assert text == "[" + name + "]]" ==> text[..|text| - 2] == "[" + name;
    }
  }

  predicate BlankUpTo(line: string, n: nat) {
    n <= |line| && IsBlank(line[..n]) && (n == |line| || line[n] == '#')
  }

  /** A line is noise exactly when it is blank up to its end or to a comment sign. */
  lemma NoiseExactly(line: string)
    ensures IsNoise(line) <==> exists n: nat :: BlankUpTo(line, n)
  {
    var i := LStripBounds(line);
    if IsNoise(line) {
      assert BlankUpTo(line, i);
    }
    if n: nat :| BlankUpTo(line, n) {
      BlankPrefix(line, i, n);
    }
  }

  lemma BlankPrefix(line: string, i: nat, n: nat)
    requires i <= |line| && n <= |line| && IsBlank(line[..i]) && IsBlank(line[..n])
    requires (i < |line| ==> !IsSpace(line[i])) && (n == |line| || line[n] == '#')
    ensures i == n
  {
    SpaceIsNoSign();
    forall k | 0 <= k < |line| ensures (k < i ==> IsSpace(line[k])) && (k < n ==> IsSpace(line[k])) {
      assert k < i ==> line[k] in line[..i];
      assert k < n ==> line[k] in line[..n];
    }
  }

  lemma SpaceIsNoSign()
    ensures !IsSpace('#')
  {
  }
}
