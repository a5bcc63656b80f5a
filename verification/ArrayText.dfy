/**
  Editing a TOML array in place of its text (`allowlist.py`): finding the bracket that closes it,
  and inserting entries before that bracket so that they are read as elements of the array.
*/
module ArrayText {
  import opened Common
  import opened LineScanner

  // ---------------------------------------------------------------------------------------------
  // The automaton: code, comments and strings (a string here may run over several lines)
  // ---------------------------------------------------------------------------------------------

  datatype Lexer =
    | Code
    | Remark
    | Opened(quote: char, doubled: bool)
    | Quoted(quote: char)
    | QuotedEscape
    | Tripled(quote: char, seen: nat)
    | TripledEscape

  function Advance(lexer: Lexer, c: char): Lexer {
    match lexer
    case Code => FromCode(c)
    case Remark => if c == '\n' then Code else Remark
    case Opened(quote, doubled) =>
      if c == quote then (if doubled then Tripled(quote, 0) else Opened(quote, true))
      else if doubled then FromCode(c)
      else InQuoted(quote, c)
    case Quoted(quote) => InQuoted(quote, c)
    case QuotedEscape => Quoted('"')
    case Tripled(quote, seen) =>
      if c == quote then (if seen >= 2 then Code else Tripled(quote, seen + 1))
      else if quote == '"' && c == '\\' then TripledEscape
      else Tripled(quote, 0)
    case TripledEscape => Tripled('"', 0)
  }

  function FromCode(c: char): Lexer {
    if c == '#' then Remark else if IsQuote(c) then Opened(c, false) else Code
  }

  function InQuoted(quote: char, c: char): Lexer {
    if c == quote then Code else if quote == '"' && c == '\\' then QuotedEscape else Quoted(quote)
  }

  function Lex(lexer: Lexer, text: string): Lexer
    decreases text
  {
    if text == "" then lexer else Lex(Advance(lexer, text[0]), text[1..])
  }

  /** The next character is read outside strings and comments (it may start either). */
  predicate ReadsCode(lexer: Lexer, c: char) {
    lexer == Code || (lexer.Opened? && lexer.doubled && c != lexer.quote)
  }

  /** `c` is a character of code, not the start of a string or a comment. */
  predicate IsCode(lexer: Lexer, c: char) {
    ReadsCode(lexer, c) && c != '#' && !IsQuote(c)
  }

  /** `c` is neither part of a comment nor space between tokens. */
  predicate IsSignificant(lexer: Lexer, c: char) {
    if ReadsCode(lexer, c) then c != '#' && !IsSpace(c) else lexer != Remark
  }

  // ---------------------------------------------------------------------------------------------
  // Brackets
  // ---------------------------------------------------------------------------------------------

  /** A scan for the closing bracket: still open at `pos`, or closed. */
  datatype Scan =
    | Open(lexer: Lexer, depth: int, pos: nat, last: nat)
    | Closed(close: nat, last: nat)

  function Depth(lexer: Lexer, depth: int, c: char): int {
    if IsCode(lexer, c) && c == '[' then depth + 1
    else if IsCode(lexer, c) && c == ']' then depth - 1
    else depth
  }

  function Step(scan: Scan, c: char): Scan {
    match scan
    case Closed(_, _) => scan
    case Open(lexer, depth, pos, last) =>
      if IsCode(lexer, c) && c == ']' && depth == 1 then Closed(pos, last)
      else Open(Advance(lexer, c), Depth(lexer, depth, c), pos + 1, if IsSignificant(lexer, c) then pos else last)
  }

  function Steps(scan: Scan, text: string): Scan
    decreases text
  {
    if text == "" then scan else Steps(Step(scan, text[0]), text[1..])
  }

  function Start(start: nat): Scan {
    Open(Code, 0, start, start)
  }

  function Bounds(text: string, start: nat): Option<(nat, nat)>
    requires start <= |text|
  {
    match Steps(Start(start), text[start..])
    case Closed(close, last) => Some((close, last))
    case Open(_, _, _, _) => None
  }

  lemma {:induction false} StepsAppend(scan: Scan, a: string, b: string)
    ensures Steps(scan, a + b) == Steps(Steps(scan, a), b)
    decreases a
  {
    if a == "" {
      assert a + b == b;
    } else {
      assert (a + b)[1..] == a[1..] + b;
      StepsAppend(Step(scan, a[0]), a[1..], b);
    }
  }

  lemma {:induction false} LexAppend(lexer: Lexer, a: string, b: string)
    ensures Lex(lexer, a + b) == Lex(Lex(lexer, a), b)
    decreases a
  {
    if a == "" {
      assert a + b == b;
    } else {
      assert (a + b)[1..] == a[1..] + b;
      LexAppend(Advance(lexer, a[0]), a[1..], b);
    }
  }

  lemma StepsNext(scan: Scan, text: string, i: nat)
    requires i < |text|
    ensures Steps(scan, text[i..]) == Steps(Step(scan, text[i]), text[i + 1..])
  {
    assert text[i..][1..] == text[i + 1..];
  }

  lemma {:induction false} ClosedStays(close: nat, last: nat, text: string)
    ensures Steps(Closed(close, last), text) == Closed(close, last)
    decreases text
  {
    if text != "" {
      ClosedStays(close, last, text[1..]);
    }
  }

  /** What the characters from `start` up to `k` leave: where the lexer stands, and how deep. */
  function LexerAt(text: string, start: nat, k: nat): Lexer
    requires start <= k <= |text|
  {
    Lex(Code, text[start..k])
  }

  function DepthAt(text: string, start: nat, k: nat): int
    requires start <= k <= |text|
    decreases k
  {
    if k == start then 0
    else Depth(LexerAt(text, start, k - 1), DepthAt(text, start, k - 1), text[k - 1])
  }

  /** A code `]` that brings the brackets opened since `start` back to balance. */
  predicate ClosesAt(text: string, start: nat, k: nat)
    requires start <= k < |text|
  {
    IsCode(LexerAt(text, start, k), text[k]) && text[k] == ']' && DepthAt(text, start, k) == 1
  }

  predicate SignificantAt(text: string, start: nat, k: nat)
    requires start <= k < |text|
  {
    IsSignificant(LexerAt(text, start, k), text[k])
  }

  /** The scan up to `k` while nothing before `k` closes. */
  lemma {:induction false} ScanPrefix(text: string, start: nat, k: nat) returns (last: nat)
    requires start <= k <= |text|
    requires forall j :: start <= j < k ==> !ClosesAt(text, start, j)
    ensures Steps(Start(start), text[start..k]) == Open(LexerAt(text, start, k), DepthAt(text, start, k), k, last)
    ensures k > start ==> start <= last < k
    ensures k > start && SignificantAt(text, start, start) ==> SignificantAt(text, start, last)
    ensures forall j :: last < j < k && start <= j ==> !SignificantAt(text, start, j)
    decreases k
  {
    if k == start {
      assert text[start..k] == "";
      last := start;
    } else {
      var before := ScanPrefix(text, start, k - 1);
      assert text[start..k] == text[start..k - 1] + [text[k - 1]];
      StepsAppend(Start(start), text[start..k - 1], [text[k - 1]]);
      LexAppend(Code, text[start..k - 1], [text[k - 1]]);
      var scan := Steps(Start(start), text[start..k - 1]);
      StepsOne(scan, text[k - 1]);
      LexOne(LexerAt(text, start, k - 1), text[k - 1]);
      assert !ClosesAt(text, start, k - 1);
      last := if SignificantAt(text, start, k - 1) then k - 1 else before;
      if k - 1 == start {
        assert text[start..start] == "";
      }
    }
  }

  lemma StepsOne(scan: Scan, c: char)
    ensures Steps(scan, [c]) == Step(scan, c)
  {
    assert [c][1..] == "";
  }

  lemma LexOne(lexer: Lexer, c: char)
    ensures Lex(lexer, [c]) == Advance(lexer, c)
  {
    assert [c][1..] == "";
  }

  /**
    What the bounds of an array mean: the first code `]` that balances the opening bracket, and the
    last character before it that is neither comment nor space; nothing when no `]` balances.
  */
  lemma BoundsMeaning(text: string, start: nat)
    requires start < |text| && text[start] == '['
    ensures match Bounds(text, start)
      case None => forall k :: start <= k < |text| ==> !ClosesAt(text, start, k)
      case Some((close, last)) =>
        && start <= last < close < |text|
        && ClosesAt(text, start, close)
        && (forall k :: start <= k < close ==> !ClosesAt(text, start, k))
        && SignificantAt(text, start, last)
        && (forall k :: last < k < close ==> !SignificantAt(text, start, k))
  {
    if k :| start <= k < |text| && ClosesAt(text, start, k) {
      var close := FirstClose(text, start, k);
      var last := ScanPrefix(text, start, close);
      assert text[start..start] == "" && !ClosesAt(text, start, start);
      assert text[start..] == text[start..close] + ([text[close]] + text[close + 1..]);
      StepsAppend(Start(start), text[start..close], [text[close]] + text[close + 1..]);
      assert ([text[close]] + text[close + 1..])[1..] == text[close + 1..];
      ClosedStays(close, last, text[close + 1..]);
    } else {
      var last := ScanPrefix(text, start, |text|);
      assert text[start..|text|] == text[start..];
    }
  }

  lemma {:induction false} FirstClose(text: string, start: nat, k: nat) returns (close: nat)
    requires start <= k < |text| && ClosesAt(text, start, k)
    ensures start <= close <= k && ClosesAt(text, start, close)
    ensures forall j :: start <= j < close ==> !ClosesAt(text, start, j)
    decreases k
  {
    if j :| start <= j < k && ClosesAt(text, start, j) {
      close := FirstClose(text, start, j);
    } else {
      close := k;
    }
  }

  // ---------------------------------------------------------------------------------------------
  // What the scan makes of TOML as it is written
  // ---------------------------------------------------------------------------------------------

  lemma StepCons(scan: Scan, c: char, rest: string)
    ensures Steps(scan, [c] + rest) == Steps(Step(scan, c), rest)
  {
    assert ([c] + rest)[1..] == rest;
  }

  lemma {:induction false} BasicScans(body: string, depth: int, pos: nat, last: nat)
    requires QuotesEscaped(body)
    ensures Steps(Open(Quoted('"'), depth, pos, last), body + "\"")
         == Open(Code, depth, pos + |body| + 1, pos + |body|)
    decreases body
  {
    if body == "" {
      StepCons(Open(Quoted('"'), depth, pos, last), '"', "");
      assert "" + "\"" == ['"'] + "";
    } else {
      assert body + "\"" == [body[0]] + (body[1..] + "\"");
      StepCons(Open(Quoted('"'), depth, pos, last), body[0], body[1..] + "\"");
      if body[0] == '\\' {
        assert body[1..] + "\"" == [body[1]] + (body[2..] + "\"");
        StepCons(Open(QuotedEscape, depth, pos + 1, pos), body[1], body[2..] + "\"");
        BasicScans(body[2..], depth, pos + 2, pos + 1);
      } else {
        BasicScans(body[1..], depth, pos + 1, pos);
      }
    }
  }

  lemma {:induction false} LiteralScans(body: string, depth: int, pos: nat, last: nat)
    requires '\'' !in body
    ensures Steps(Open(Quoted('\''), depth, pos, last), body + "'")
         == Open(Code, depth, pos + |body| + 1, pos + |body|)
    decreases body
  {
    if body == "" {
      StepCons(Open(Quoted('\''), depth, pos, last), '\'', "");
      assert "" + "'" == ['\''] + "";
    } else {
      assert body[0] in body && forall c :: c in body[1..] ==> c in body;
      assert body + "'" == [body[0]] + (body[1..] + "'");
      StepCons(Open(Quoted('\''), depth, pos, last), body[0], body[1..] + "'");
      LiteralScans(body[1..], depth, pos + 1, pos);
    }
  }

  lemma OneQuoteScans(quote: char, c: char, rest: string, depth: int, pos: nat, last: nat)
    requires IsQuote(quote) && c != quote
    ensures Steps(Open(Tripled(quote, 0), depth, pos, last), [quote] + ([c] + rest))
         == Steps(Open(Tripled(quote, 0), depth, pos + 1, pos), [c] + rest)
  {
    StepCons(Open(Tripled(quote, 0), depth, pos, last), quote, [c] + rest);
    StepCons(Open(Tripled(quote, 1), depth, pos + 1, pos), c, rest);
    StepCons(Open(Tripled(quote, 0), depth, pos + 1, pos), c, rest);
  }

  lemma TwoQuotesScan(quote: char, c: char, rest: string, depth: int, pos: nat, last: nat)
    requires IsQuote(quote) && c != quote
    ensures Steps(Open(Tripled(quote, 0), depth, pos, last), [quote] + ([quote] + ([c] + rest)))
         == Steps(Open(Tripled(quote, 0), depth, pos + 1, pos), [quote] + ([c] + rest))
  {
    StepCons(Open(Tripled(quote, 0), depth, pos, last), quote, [quote] + ([c] + rest));
    StepCons(Open(Tripled(quote, 1), depth, pos + 1, pos), quote, [c] + rest);
    StepCons(Open(Tripled(quote, 2), depth, pos + 2, pos + 1), c, rest);
    OneQuoteScans(quote, c, rest, depth, pos + 1, pos);
    StepCons(Open(Tripled(quote, 0), depth, pos + 2, pos + 1), c, rest);
  }

  lemma QuoteScans(quote: char, text: string, depth: int, pos: nat, last: nat)
    requires IsQuote(quote) && |text| > 3 && text[0] == quote && !(Three(quote) <= text)
    ensures Steps(Open(Tripled(quote, 0), depth, pos, last), text)
         == Steps(Open(Tripled(quote, 0), depth, pos + 1, pos), text[1..])
  {
    hide Steps;
    SplitThree(text);
    assert text[..3] == [text[0], text[1], text[2]] && text[..3] <= text;
    if text[1] == quote {
      assert text[2] != quote;
      TwoQuotesScan(quote, text[2], text[3..], depth, pos, last);
    } else {
      assert text[2..] == [text[2]] + text[3..];
      OneQuoteScans(quote, text[1], text[2..], depth, pos, last);
    }
  }

  lemma ThreeScan(quote: char, depth: int, pos: nat, last: nat)
    requires IsQuote(quote)
    ensures Steps(Open(Tripled(quote, 0), depth, pos, last), Three(quote)) == Open(Code, depth, pos + 3, pos + 2)
  {
    assert Three(quote) == [quote] + [quote, quote] && [quote, quote] == [quote] + [quote] && [quote] == [quote] + "";
    StepCons(Open(Tripled(quote, 0), depth, pos, last), quote, [quote, quote]);
    StepCons(Open(Tripled(quote, 1), depth, pos + 1, pos), quote, [quote]);
    StepCons(Open(Tripled(quote, 2), depth, pos + 2, pos + 1), quote, "");
  }

  lemma {:induction false} LongLiteralScans(body: string, depth: int, pos: nat, last: nat)
    requires NoTriples(body)
    ensures Steps(Open(Tripled('\'', 0), depth, pos, last), body + Three('\''))
         == Open(Code, depth, pos + |body| + 3, pos + |body| + 2)
    decreases body
  {
    if body == "" {
      assert body + Three('\'') == Three('\'');
      ThreeScan('\'', depth, pos, last);
    } else {
      var text := body + Three('\'');
      assert text[1..] == body[1..] + Three('\'') && text == [text[0]] + text[1..];
      LongLiteralScans(body[1..], depth, pos + 1, pos);
      if text[0] == '\'' {
        QuoteScans('\'', text, depth, pos, last);
      } else {
        StepCons(Open(Tripled('\'', 0), depth, pos, last), text[0], text[1..]);
      }
    }
  }

  lemma {:induction false} LongBasicScans(body: string, depth: int, pos: nat, last: nat)
    requires TriplesEscaped(body)
    ensures Steps(Open(Tripled('"', 0), depth, pos, last), body + Three('"'))
         == Open(Code, depth, pos + |body| + 3, pos + |body| + 2)
    decreases body
  {
    if body == "" {
      assert body + Three('"') == Three('"');
      ThreeScan('"', depth, pos, last);
    } else {
      var text := body + Three('"');
      assert text[1..] == body[1..] + Three('"') && text == [text[0]] + text[1..];
      hide Steps;
      if text[0] == '\\' {
        assert text[2..] == body[2..] + Three('"') && text[1..] == [text[1]] + text[2..];
        StepCons(Open(Tripled('"', 0), depth, pos, last), text[0], text[1..]);
        StepCons(Open(TripledEscape, depth, pos + 1, pos), text[1], text[2..]);
        LongBasicScans(body[2..], depth, pos + 2, pos + 1);
      } else {
        LongBasicScans(body[1..], depth, pos + 1, pos);
        if text[0] == '"' {
          QuoteScans('"', text, depth, pos, last);
        } else {
          StepCons(Open(Tripled('"', 0), depth, pos, last), text[0], text[1..]);
        }
      }
    }
  }

  lemma OpenQuoted(quote: char, body: string, depth: int, pos: nat, last: nat)
    requires IsQuote(quote) && body != "" && body[0] != quote
    ensures Steps(Open(Code, depth, pos, last), [quote] + body) == Steps(Open(Quoted(quote), depth, pos + 1, pos), body)
  {
    StepCons(Open(Code, depth, pos, last), quote, body);
    assert body == [body[0]] + body[1..];
    StepCons(Open(Opened(quote, false), depth, pos + 1, pos), body[0], body[1..]);
    StepCons(Open(Quoted(quote), depth, pos + 1, pos), body[0], body[1..]);
  }

  lemma OpenTripled(quote: char, rest: string, depth: int, pos: nat, last: nat)
    requires IsQuote(quote)
    ensures Steps(Open(Code, depth, pos, last), Three(quote) + rest)
         == Steps(Open(Tripled(quote, 0), depth, pos + 3, pos + 2), rest)
  {
    assert Three(quote) + rest == [quote] + ([quote] + ([quote] + rest));
    StepCons(Open(Code, depth, pos, last), quote, [quote] + ([quote] + rest));
    StepCons(Open(Opened(quote, false), depth, pos + 1, pos), quote, [quote] + rest);
    StepCons(Open(Opened(quote, true), depth, pos + 2, pos + 1), quote, rest);
  }

  lemma EmptyQuoted(quote: char, rest: string, depth: int, pos: nat, last: nat)
    requires IsQuote(quote) && rest != "" && rest[0] != quote
    ensures Steps(Open(Code, depth, pos, last), [quote, quote] + rest)
         == Steps(Open(Code, depth, pos + 2, pos + 1), rest)
  {
    assert [quote, quote] + rest == [quote] + ([quote] + rest) && rest == [rest[0]] + rest[1..];
    StepCons(Open(Code, depth, pos, last), quote, [quote] + rest);
    StepCons(Open(Opened(quote, false), depth, pos + 1, pos), quote, rest);
    StepCons(Open(Opened(quote, true), depth, pos + 2, pos + 1), rest[0], rest[1..]);
    StepCons(Open(Code, depth, pos + 2, pos + 1), rest[0], rest[1..]);
  }

  lemma ShortIsSkipped(s: StringToken, rest: string, depth: int, pos: nat, last: nat)
    requires WellWritten(s) && s.body != "" && (s.BasicString? || s.LiteralString?)
    ensures var n := |Written(s)|;
      Steps(Open(Code, depth, pos, last), Written(s) + rest) == Steps(Open(Code, depth, pos + n, pos + n - 1), rest)
  {
    hide Steps;
    var quote, body := QuoteOf(s), s.body;
    assert body[0] in body;
    assert Written(s) + rest == ([quote] + (body + [quote])) + rest;
    StepsAppend(Open(Code, depth, pos, last), [quote] + (body + [quote]), rest);
    OpenQuoted(quote, body + [quote], depth, pos, last);
    if s.BasicString? {
      BasicScans(body, depth, pos + 1, pos);
    } else {
      LiteralScans(body, depth, pos + 1, pos);
    }
  }

  lemma LongIsSkipped(s: StringToken, rest: string, depth: int, pos: nat, last: nat)
    requires WellWritten(s) && (s.LongBasic? || s.LongLiteral?)
    ensures var n := |Written(s)|;
      Steps(Open(Code, depth, pos, last), Written(s) + rest) == Steps(Open(Code, depth, pos + n, pos + n - 1), rest)
  {
    hide Steps;
    var quote, body := QuoteOf(s), s.body;
    assert Written(s) + rest == (Three(quote) + (body + Three(quote))) + rest;
    StepsAppend(Open(Code, depth, pos, last), Three(quote) + (body + Three(quote)), rest);
    OpenTripled(quote, body + Three(quote), depth, pos, last);
    if s.LongBasic? {
      LongBasicScans(body, depth, pos + 3, pos + 2);
    } else {
      LongLiteralScans(body, depth, pos + 3, pos + 2);
    }
  }

  /**
    A string of any kind, as TOML writes it, is skipped whole, brackets, comment signs and line ends in
    it and all; its closing quote is the last significant character so far.
  */
  lemma StringIsSkipped(s: StringToken, rest: string, depth: int, pos: nat, last: nat)
    requires WellWritten(s) && rest != ""
    requires s.body == "" && |Written(s)| == 2 ==> rest[0] != QuoteOf(s)
    ensures var n := |Written(s)|;
      Steps(Open(Code, depth, pos, last), Written(s) + rest) == Steps(Open(Code, depth, pos + n, pos + n - 1), rest)
  {
    if s.LongBasic? || s.LongLiteral? {
      LongIsSkipped(s, rest, depth, pos, last);
    } else if s.body != "" {
      ShortIsSkipped(s, rest, depth, pos, last);
    } else {
      assert Written(s) == [QuoteOf(s), QuoteOf(s)];
      EmptyQuoted(QuoteOf(s), rest, depth, pos, last);
    }
  }

  lemma {:induction false} RemarkScans(comment: string, depth: int, pos: nat, last: nat)
    requires '\n' !in comment
    ensures Steps(Open(Remark, depth, pos, last), comment + "\n") == Open(Code, depth, pos + |comment| + 1, last)
    decreases comment
  {
    if comment == "" {
      assert "" + "\n" == ['\n'] + "";
      StepCons(Open(Remark, depth, pos, last), '\n', "");
    } else {
      assert comment[0] in comment && forall c :: c in comment[1..] ==> c in comment;
      assert comment + "\n" == [comment[0]] + (comment[1..] + "\n");
      StepCons(Open(Remark, depth, pos, last), comment[0], comment[1..] + "\n");
      RemarkScans(comment[1..], depth, pos + 1, last);
    }
  }

  /** Between strings a comment is skipped with its line end and counts for nothing. */
  lemma CommentIsSkipped(comment: string, rest: string, depth: int, pos: nat, last: nat)
    requires '\n' !in comment
    ensures Steps(Open(Code, depth, pos, last), "#" + comment + "\n" + rest)
         == Steps(Open(Code, depth, pos + |comment| + 2, last), rest)
  {
    hide Steps;
    var here := Open(Code, depth, pos, last);
    assert "#" + comment + "\n" + rest == (['#'] + (comment + "\n")) + rest;
    StepsAppend(here, ['#'] + (comment + "\n"), rest);
    StepCons(here, '#', comment + "\n");
    RemarkScans(comment, depth, pos + 1, last);
  }

  /**
    Between strings, space counts for nothing; brackets change the depth, and the one that closes the
    first ends the scan; any other character is significant.
  */
  lemma BetweenStrings(c: char, rest: string, depth: int, pos: nat, last: nat)
    requires c !in {'#', '"', '\''}
    ensures Steps(Open(Code, depth, pos, last), [c] + rest) ==
      if c == ']' && depth == 1 then Closed(pos, last)
      else Steps(Open(Code, if c == '[' then depth + 1 else if c == ']' then depth - 1 else depth, pos + 1,
                      if IsSpace(c) then last else pos), rest)
  {
    hide Steps;
    StepCons(Open(Code, depth, pos, last), c, rest);
    ClosedStays(pos, last, rest);
  }

  // ---------------------------------------------------------------------------------------------
  // The scanner itself
  // ---------------------------------------------------------------------------------------------

  function Outcome(scan: Scan): Option<(nat, nat)> {
    match scan
    case Closed(close, last) => Some((close, last))
    case Open(_, _, _, _) => None
  }

  /** The bounds a scan standing at `i` still finds. */
  function Ahead(lexer: Lexer, depth: int, text: string, i: nat, last: nat): Option<(nat, nat)>
    requires i <= |text|
  {
    Outcome(Steps(Open(lexer, depth, i, last), text[i..]))
  }

  lemma AheadStep(lexer: Lexer, depth: int, text: string, i: nat, last: nat)
    requires i < |text|
    ensures Ahead(lexer, depth, text, i, last) ==
      if IsCode(lexer, text[i]) && text[i] == ']' && depth == 1 then Some((i, last))
      else Ahead(Advance(lexer, text[i]), Depth(lexer, depth, text[i]), text, i + 1,
                 if IsSignificant(lexer, text[i]) then i else last)
  {
    StepsNext(Open(lexer, depth, i, last), text, i);
    ClosedStays(i, last, text[i + 1..]);
  }

  /** `_array_bounds`: the index of the closing `]` and of the last significant character before it. */
  method ArrayBounds(text: string, start: nat) returns (bounds: Option<(nat, nat)>)
    requires start < |text| && text[start] == '['
    ensures bounds == Bounds(text, start)
  {
    var depth: int := 0;
    var last: nat, i: nat := start, start;
    while i < |text|
      invariant start <= i <= |text|
      invariant Bounds(text, start) == Ahead(Code, depth, text, i, last)
      decreases |text| - i
    {
      var ch := text[i];
      AheadStep(Code, depth, text, i, last);
      if ch == '#' {
        var newline := FindNewline(text, i);
        RemarkAhead(text, i + 1, depth, last);
        if newline.None? {
          return None;
        }
        i := newline.value;
      } else if IsQuote(ch) {
        var after := SkipString(text, i, depth, last);
        if after.None? {
          return None;
        }
        i := after.value;
        last := i - 1;
      } else {
        if ch == '[' {
          depth := depth + 1;
        } else if ch == ']' {
          depth := depth - 1;
          if depth == 0 {
            return Some((i, last));
          }
        }
        if !IsSpace(ch) {
          last := i;
        }
        i := i + 1;
      }
    }
    return None;
  }

  function FindNewline(text: string, i: nat): (found: Option<nat>)
    ensures found.Some? ==> i <= found.value < |text| && text[found.value] == '\n'
    decreases |text| - i
  {
    if |text| <= i then None else if text[i] == '\n' then Some(i) else FindNewline(text, i + 1)
  }

  lemma {:induction false} RemarkAhead(text: string, i: nat, depth: int, last: nat)
    requires i <= |text|
    ensures Ahead(Remark, depth, text, i, last) ==
            match FindNewline(text, i)
            case None => None
            case Some(j) => Ahead(Code, depth, text, j, last)
    decreases |text| - i
  {
    if i < |text| {
      AheadStep(Remark, depth, text, i, last);
      if text[i] == '\n' {
        AheadStep(Code, depth, text, i, last);
      } else {
        RemarkAhead(text, i + 1, depth, last);
      }
    }
  }

  /** Where the automaton stands inside a string opened with `ch`. */
  function InString(ch: char, triple: bool): Lexer {
    if triple then Tripled(ch, 0) else Quoted(ch)
  }

  predicate StringEndsAt(text: string, ch: char, triple: bool, j: nat) {
    j < |text| && (if triple then TripleAt(text, ch, j) else text[j] == ch)
  }

  /** One character of a string that does not end there, or two when it is an escape. */
  lemma StepInString(text: string, ch: char, triple: bool, j: nat, depth: int)
    requires 0 < j < |text| && IsQuote(ch) && !StringEndsAt(text, ch, triple, j)
    ensures Ahead(InString(ch, triple), depth, text, j, j - 1) ==
            if !(ch == '"' && text[j] == '\\') then Ahead(InString(ch, triple), depth, text, j + 1, j)
            else if j + 2 <= |text| then Ahead(InString(ch, triple), depth, text, j + 2, j + 1)
            else None
  {
    var inside := InString(ch, triple);
    AheadStep(inside, depth, text, j, j - 1);
    if ch == '"' && text[j] == '\\' {
      if j + 1 < |text| {
        AheadStep(Advance(inside, text[j]), depth, text, j + 1, j);
      }
    } else if triple && text[j] == ch {
      PassInString(text, ch, j, depth);
    }
  }

  lemma EndOfString(text: string, ch: char, triple: bool, j: nat, depth: int)
    requires 0 < j && IsQuote(ch) && StringEndsAt(text, ch, triple, j)
    ensures var end := j + (if triple then 3 else 1);
      end <= |text| && Ahead(InString(ch, triple), depth, text, j, j - 1) == Ahead(Code, depth, text, end, end - 1)
  {
    if triple {
      CloseString(text, ch, j, depth);
    } else {
      AheadStep(Quoted(ch), depth, text, j, j - 1);
    }
  }

  /** Over the string that starts at `start`: just past its close, or nowhere when it never closes. */
  method SkipString(text: string, start: nat, ghost depth: int, ghost last: nat) returns (after: Option<nat>)
    requires start < |text| && IsQuote(text[start])
    ensures after.Some? ==> start + 1 < after.value <= |text|
    ensures Ahead(Code, depth, text, start, last) ==
            match after
            case None => None
            case Some(i) => if start + 1 < i <= |text| then Ahead(Code, depth, text, i, i - 1) else None
  {
    hide Advance, IsSignificant, IsCode;
    var ch := text[start];
    var triple := TripleAt(text, ch, start);
    var width := if triple then 3 else 1;
    var j := start + width;
    OpenString(text, start, depth, last);
    while j < |text| && !(if triple then TripleAt(text, ch, j) else text[j] == ch)
      invariant start + width <= j
      invariant j <= |text| ==>
                Ahead(Code, depth, text, start, last) == Ahead(InString(ch, triple), depth, text, j, j - 1)
      invariant j > |text| ==> Ahead(Code, depth, text, start, last) == None
      decreases |text| - j
    {
      StepInString(text, ch, triple, j, depth);
      if ch == '"' && text[j] == '\\' {
        j := j + 2;
      } else {
        j := j + 1;
      }
    }
    if j >= |text| {
      return None;
    }
    EndOfString(text, ch, triple, j, depth);
    return Some(j + width);
  }

  lemma OpenString(text: string, i: nat, depth: int, last: nat)
    requires i < |text| && IsQuote(text[i])
    ensures Ahead(Code, depth, text, i, last) ==
            if TripleAt(text, text[i], i) then Ahead(Tripled(text[i], 0), depth, text, i + 3, i + 2)
            else Ahead(Quoted(text[i]), depth, text, i + 1, i)
  {
    var q := text[i];
    AheadStep(Code, depth, text, i, last);
    if i + 1 < |text| {
      AheadStep(Opened(q, false), depth, text, i + 1, i);
      AheadStep(Quoted(q), depth, text, i + 1, i);
      if text[i + 1] == q && i + 2 < |text| {
        AheadStep(Opened(q, true), depth, text, i + 2, i + 1);
        AheadStep(Code, depth, text, i + 2, i + 1);
      }
    }
  }

  /** A quote inside a triple-quoted string that starts no triple closes nothing. */
  lemma PassInString(text: string, q: char, i: nat, depth: int)
    requires 0 < i < |text| && text[i] == q && IsQuote(q) && !TripleAt(text, q, i)
    ensures Ahead(Tripled(q, 0), depth, text, i, i - 1) == Ahead(Tripled(q, 0), depth, text, i + 1, i)
  {
    AheadStep(Tripled(q, 0), depth, text, i, i - 1);
    if i + 1 < |text| {
      AheadStep(Tripled(q, 0), depth, text, i + 1, i);
      AheadStep(Tripled(q, 1), depth, text, i + 1, i);
      if text[i + 1] == q && i + 2 < |text| {
        AheadStep(Tripled(q, 1), depth, text, i + 2, i + 1);
        AheadStep(Tripled(q, 2), depth, text, i + 2, i + 1);
      }
    }
  }

  lemma CloseString(text: string, q: char, i: nat, depth: int)
    requires 0 < i && TripleAt(text, q, i) && IsQuote(q)
    ensures Ahead(Tripled(q, 0), depth, text, i, i - 1) == Ahead(Code, depth, text, i + 3, i + 2)
  {
    AheadStep(Tripled(q, 0), depth, text, i, i - 1);
    AheadStep(Tripled(q, 1), depth, text, i + 1, i);
    AheadStep(Tripled(q, 2), depth, text, i + 2, i + 1);
  }

  // ---------------------------------------------------------------------------------------------
  // Tokens and elements
  // ---------------------------------------------------------------------------------------------

  /** A significant character, and whether it is code or part of a string. */
  datatype Token = Token(c: char, code: bool)

  function Tokens(lexer: Lexer, text: string): seq<Token>
    decreases text
  {
    if text == "" then []
    else
      TokenOf(lexer, text[0]) + Tokens(Advance(lexer, text[0]), text[1..])
  }

  function TokenOf(lexer: Lexer, c: char): seq<Token> {
    if IsSignificant(lexer, c) then [Token(c, IsCode(lexer, c))] else []
  }

  /** Splitting an array's tokens at its top-level commas: braces and brackets nest. */
  datatype Split = Split(depth: int, current: seq<Token>, done: seq<seq<Token>>)

  function Take(split: Split, t: Token): Split {
    if t.code && t.c == '[' && split.depth == 0 then Split(1, [], [])
    else if t.code && t.c == ',' && split.depth == 1 then Split(1, [], split.done + [split.current])
    else
      var depth :=
        if t.code && t.c in {'[', '{'} then split.depth + 1
        else if t.code && t.c in {']', '}'} then split.depth - 1
        else split.depth;
      Split(depth, split.current + [t], split.done)
  }

  function TakeAll(split: Split, tokens: seq<Token>): Split
    decreases tokens
  {
    if tokens == [] then split else TakeAll(Take(split, tokens[0]), tokens[1..])
  }

  /** The tokens of the array from its opening bracket up to (not including) its close, split. */
  function SplitOf(text: string, start: nat, close: nat): Split
    requires start <= close <= |text|
  {
    TakeAll(Split(0, [], []), Tokens(Code, text[start..close]))
  }

  /** The elements of the array, as token sequences; a trailing comma adds none. */
  function Elements(text: string, start: nat, close: nat): seq<seq<Token>>
    requires start <= close <= |text|
  {
    var split := SplitOf(text, start, close);
    split.done + (if split.current == [] then [] else [split.current])
  }

  lemma JoinTokens(a: seq<Token>, b: seq<Token>, c: seq<Token>)
    ensures a + (b + c) == (a + b) + c
  {
  }

  lemma {:induction false} TokensAppend(lexer: Lexer, a: string, b: string)
    ensures Tokens(lexer, a + b) == Tokens(lexer, a) + Tokens(Lex(lexer, a), b)
    decreases a
  {
    hide Advance, TokenOf;
    if a == "" {
      assert a + b == b;
    } else {
      assert (a + b)[1..] == a[1..] + b;
      TokensAppend(Advance(lexer, a[0]), a[1..], b);
      JoinTokens(TokenOf(lexer, a[0]), Tokens(Advance(lexer, a[0]), a[1..]), Tokens(Lex(lexer, a), b));
    }
  }

  lemma {:induction false} TakeAllAppend(split: Split, a: seq<Token>, b: seq<Token>)
    ensures TakeAll(split, a + b) == TakeAll(TakeAll(split, a), b)
    decreases a
  {
    if a == [] {
      assert a + b == b;
    } else {
      assert (a + b)[1..] == a[1..] + b;
      TakeAllAppend(Take(split, a[0]), a[1..], b);
    }
  }

  lemma TakeOne(split: Split, t: Token)
    ensures TakeAll(split, [t]) == Take(split, t)
  {
    assert [t][1..] == [];
  }

  // ---------------------------------------------------------------------------------------------
  // Inserting where nothing significant follows before the close
  // ---------------------------------------------------------------------------------------------

  /** Code comes next, whatever comes next, unless it is one more quote. */
  predicate Ready(lexer: Lexer) {
    lexer == Code || (lexer.Opened? && lexer.doubled)
  }

  predicate Quiet(lexer: Lexer, text: string)
    decreases text
  {
    text == "" || (!IsSignificant(lexer, text[0]) && Quiet(Advance(lexer, text[0]), text[1..]))
  }

  predicate NoBrackets(tokens: seq<Token>) {
    forall i :: 0 <= i < |tokens| && tokens[i].code ==> tokens[i].c != '[' && tokens[i].c != ']'
  }

  lemma {:induction false} QuietRun(lexer: Lexer, text: string, depth: int, pos: nat, last: nat)
    requires Quiet(lexer, text)
    ensures Tokens(lexer, text) == []
    ensures Steps(Open(lexer, depth, pos, last), text) == Open(Lex(lexer, text), depth, pos + |text|, last)
    decreases text
  {
    if text != "" {
      QuietRun(Advance(lexer, text[0]), text[1..], depth, pos + 1, last);
    }
  }

  lemma {:induction false} NoBracketRun(lexer: Lexer, text: string, depth: int, pos: nat, last: nat)
      returns (newLast: nat)
    requires NoBrackets(Tokens(lexer, text))
    ensures Steps(Open(lexer, depth, pos, last), text) == Open(Lex(lexer, text), depth, pos + |text|, newLast)
    decreases text
  {
    if text == "" {
      newLast := last;
    } else {
      var tokens, rest := Tokens(lexer, text), Tokens(Advance(lexer, text[0]), text[1..]);
      if IsSignificant(lexer, text[0]) {
        assert tokens[0] == Token(text[0], IsCode(lexer, text[0])) && rest == tokens[1..];
      } else {
        assert rest == tokens;
      }
      newLast := NoBracketRun(Advance(lexer, text[0]), text[1..], depth, pos + 1,
                              if IsSignificant(lexer, text[0]) then pos else last);
    }
  }

  /** From a ready lexer, text that does not start with a quote reads as it does from code. */
  lemma ReadyIsCode(lexer: Lexer, text: string, depth: int, pos: nat, last: nat)
    requires Ready(lexer) && text != "" && !IsQuote(text[0])
    requires lexer.Opened? ==> IsQuote(lexer.quote)
    ensures Lex(lexer, text) == Lex(Code, text)
    ensures Tokens(lexer, text) == Tokens(Code, text)
    ensures Quiet(lexer, text) == Quiet(Code, text)
    ensures Steps(Open(lexer, depth, pos, last), text) == Steps(Open(Code, depth, pos, last), text)
  {
    assert Advance(lexer, text[0]) == Advance(Code, text[0]);
    assert Step(Open(lexer, depth, pos, last), text[0]) == Step(Open(Code, depth, pos, last), text[0]);
  }

  lemma {:induction false} OpenedHoldsQuote(lexer: Lexer, text: string)
    requires lexer.Opened? ==> IsQuote(lexer.quote)
    ensures Lex(lexer, text).Opened? ==> IsQuote(Lex(lexer, text).quote)
    decreases text
  {
    if text != "" {
      OpenedHoldsQuote(Advance(lexer, text[0]), text[1..]);
    }
  }

  /** `[` at `start` closes at `close`, and from `p` on nothing significant stands before it. */
  ghost predicate QuietTail(text: string, start: nat, p: nat, close: nat) {
    && start < p <= close < |text|
    && Bounds(text, start).Some? && Bounds(text, start).value.0 == close
    && Ready(LexerAt(text, start, p))
    && Quiet(LexerAt(text, start, p), text[p..close])
    && Ready(Lex(LexerAt(text, start, p), text[p..close]))
    && Steps(Start(start), text[start..p]).Open? && Steps(Start(start), text[start..p]).depth == 1
    && text[close] == ']'
  }

  /** `insert` is code that leaves the lexer where it was and touches no bracket. */
  predicate Insertable(insert: string) {
    insert != "" && !IsQuote(insert[0]) && Lex(Code, insert) == Code && NoBrackets(Tokens(Code, insert))
  }

  function Inserted(text: string, p: nat, insert: string): string
    requires p <= |text|
  {
    text[..p] + insert + text[p..]
  }

  lemma ScanState(text: string, start: nat, p: nat) returns (last: nat)
    requires start <= p <= |text| && Steps(Start(start), text[start..p]).Open?
    ensures Steps(Start(start), text[start..p])
              == Open(LexerAt(text, start, p), Steps(Start(start), text[start..p]).depth, p, last)
  {
    OpenTracks(Start(start), text[start..p]);
    last := Steps(Start(start), text[start..p]).last;
  }

  lemma {:induction false} OpenTracks(scan: Scan, text: string)
    requires scan.Open? && Steps(scan, text).Open?
    ensures Steps(scan, text).lexer == Lex(scan.lexer, text) && Steps(scan, text).pos == scan.pos + |text|
    decreases text
  {
    if text != "" {
      if Step(scan, text[0]).Closed? {
        ClosedStays(Step(scan, text[0]).close, Step(scan, text[0]).last, text[1..]);
      } else {
        OpenTracks(Step(scan, text[0]), text[1..]);
      }
    }
  }

  /** An array's text up to a ready point, followed by an insertion. */
  lemma PrefixInsert(start: nat, prefix: string, insert: string) returns (last: nat)
    requires Ready(Lex(Code, prefix)) && Insertable(insert)
    requires Steps(Start(start), prefix).Open? && Steps(Start(start), prefix).depth == 1
    ensures Steps(Start(start), prefix + insert) == Open(Code, 1, start + |prefix| + |insert|, last)
    ensures Lex(Code, prefix + insert) == Code
    ensures Tokens(Code, prefix + insert) == Tokens(Code, prefix) + Tokens(Code, insert)
  {
    OpenedHoldsQuote(Code, prefix);
    var lexer, before := Lex(Code, prefix), Steps(Start(start), prefix).last;
    ReadyIsCode(lexer, insert, 1, start + |prefix|, before);
    OpenTracks(Start(start), prefix);
    StepsAppend(Start(start), prefix, insert);
    LexAppend(Code, prefix, insert);
    TokensAppend(Code, prefix, insert);
    last := NoBracketRun(Code, insert, 1, start + |prefix|, before);
    assert Steps(Start(start), prefix) == Open(lexer, 1, start + |prefix|, before);
  }

  lemma QuietFromCode(lexer: Lexer, quiet: string)
    requires Ready(lexer) && (lexer.Opened? ==> IsQuote(lexer.quote)) && Quiet(lexer, quiet)
    requires Ready(Lex(lexer, quiet))
    ensures Quiet(Code, quiet) && Ready(Lex(Code, quiet))
    ensures Tokens(lexer, quiet) == Tokens(Code, quiet) == []
  {
    if quiet != "" {
      QuietStartsNoQuote(lexer, quiet);
      ReadyIsCode(lexer, quiet, 0, 0, 0);
    }
    QuietRun(Code, quiet, 0, 0, 0);
  }

  lemma QuietAddsNoToken(text: string, start: nat, p: nat, close: nat)
    requires start <= p <= close <= |text| && Tokens(LexerAt(text, start, p), text[p..close]) == []
    ensures Tokens(Code, text[start..close]) == Tokens(Code, text[start..p])
  {
    assert text[start..close] == text[start..p] + text[p..close];
    TokensAppend(Code, text[start..p], text[p..close]);
  }

  lemma InsertedSlices(text: string, start: nat, p: nat, close: nat, insert: string)
    requires start <= p <= close < |text|
    ensures var out, q, newClose := Inserted(text, p, insert), p + |insert|, close + |insert|;
      && |out| == |text| + |insert| && newClose < |out| && out[start..q] == text[start..p] + insert
      && out[q..newClose] == text[p..close] && out[newClose] == text[close]
      && forall i :: 0 <= i < p ==> out[i] == text[i]
  {
  }

  /** Inserted code becomes part of the array: its tokens follow the old ones, and the close moves along. */
  lemma InsertInQuietTail(text: string, start: nat, p: nat, close: nat, insert: string)
    requires QuietTail(text, start, p, close) && Insertable(insert)
    ensures |Inserted(text, p, insert)| == |text| + |insert|
    ensures QuietTail(Inserted(text, p, insert), start, p + |insert|, close + |insert|)
    ensures Tokens(Code, Inserted(text, p, insert)[start..close + |insert|])
         == Tokens(Code, text[start..close]) + Tokens(Code, insert)
  {
    hide Inserted, Tokens, Steps, Bounds, Quiet;
    InsertedSlices(text, start, p, close, insert);
    var out, q := Inserted(text, p, insert), p + |insert|;
    var prefix, quiet := text[start..p], text[p..close];
    var last := PrefixInsert(start, prefix, insert);
    OpenedHoldsQuote(Code, prefix);
    QuietFromCode(Lex(Code, prefix), quiet);
    CloseFollows(out, start, q, close + |insert|, last);
    QuietAddsNoToken(text, start, p, close);
    QuietAddsNoToken(out, start, q, close + |insert|);
  }

  lemma QuietStartsNoQuote(lexer: Lexer, quiet: string)
    requires Ready(lexer) && (lexer.Opened? ==> IsQuote(lexer.quote)) && quiet != "" && Quiet(lexer, quiet)
    ensures !IsQuote(quiet[0])
  {
    assert !IsSpace('"') && !IsSpace('\'');
  }

  lemma ThreePieces(text: string, start: nat, q: nat, close: nat)
    requires start <= q <= close <= |text|
    ensures text[start..] == text[start..q] + (text[q..close] + text[close..])
  {
  }

  /** A quiet stretch at depth one, then a bracket: that bracket closes. */
  lemma CloseFollows(text: string, start: nat, q: nat, close: nat, last: nat)
    requires start < q <= close < |text| && text[close] == ']'
    requires Steps(Start(start), text[start..q]) == Open(Code, 1, q, last) && LexerAt(text, start, q) == Code
    requires Quiet(Code, text[q..close]) && Ready(Lex(Code, text[q..close]))
    ensures QuietTail(text, start, q, close)
  {
    QuietRun(Code, text[q..close], 1, q, last);
    ThreePieces(text, start, q, close);
    StepsAppend(Start(start), text[start..q], text[q..close] + text[close..]);
    StepsAppend(Open(Code, 1, q, last), text[q..close], text[close..]);
    assert text[close..][1..] == text[close + 1..];
    OpenedHoldsQuote(Code, text[q..close]);
    ClosedStays(close, last, text[close + 1..]);
  }

  // ---------------------------------------------------------------------------------------------
  // The two shapes of insertion
  // ---------------------------------------------------------------------------------------------

  /** The start of the line that holds `close`. */
  function LineStart(text: string, close: nat): (start: nat)
    requires close <= |text|
    ensures start <= close
    ensures start > 0 ==> text[start - 1] == '\n'
    ensures '\n' !in text[start..close]
  {
    if close == 0 || text[close - 1] == '\n' then close
    else
      var start := LineStart(text, close - 1);
      assert forall k :: start <= k < close - 1 ==> text[k] == text[start..close - 1][k - start];
      assert forall k :: start <= k < close ==> text[k] != '\n';
      start
  }

  predicate IsBlank(text: string, from: nat, to: nat)
    requires from <= to <= |text|
  {
    forall i :: from <= i < to ==> IsSpace(text[i])
  }

  /** A comma, unless the array is empty or already ends in one. */
  function Comma(last: char): string {
    if last == '[' || last == ',' then "" else ","
  }

  function Inline(items: seq<string>): string {
    if items == [] then "" else if |items| == 1 then items[0] else items[0] + ", " + Inline(items[1..])
  }

  function Block(items: seq<string>): string {
    if items == [] then "" else "  " + items[0] + ",\n" + Block(items[1..])
  }

  /** The text with `items` appended to the array: inline, or as lines of their own above the `]`. */
  function WithItems(text: string, close: nat, last: nat, items: seq<string>): string
    requires last < close < |text| && !IsSpace(text[last])
  {
    var lineStart := LineStart(text, close);
    var comma := Comma(text[last]);
    if !IsBlank(text, lineStart, close) then
      text[..last + 1] + comma + " " + Inline(items) + text[last + 1..]
    else
      text[..last + 1] + comma + text[last + 1..lineStart] + Block(items) + text[lineStart..]
  }

  lemma {:induction false} InlineSnoc(items: seq<string>, item: string)
    ensures Inline(items + [item]) == if items == [] then item else Inline(items) + ", " + item
  {
    if items == [] {
      assert [] + [item] == [item];
    } else {
      assert (items + [item])[1..] == items[1..] + [item] && (items + [item])[0] == items[0];
      InlineSnoc(items[1..], item);
      if |items| > 1 {
        Reassociated(items[0], Inline(items[1..]), item);
      }
    }
  }

  lemma Reassociated(first: string, middle: string, last: string)
    ensures first + ", " + (middle + ", " + last) == first + ", " + middle + ", " + last
  {
  }

  lemma {:induction false} BlockSnoc(items: seq<string>, item: string)
    ensures Block(items + [item]) == Block(items) + ("  " + item + ",\n")
  {
    if items == [] {
      assert [] + [item] == [item] && [item][1..] == [];
    } else {
      assert (items + [item])[1..] == items[1..] + [item] && (items + [item])[0] == items[0];
      BlockSnoc(items[1..], item);
      assert "  " + items[0] + ",\n" + (Block(items[1..]) + ("  " + item + ",\n"))
          == "  " + items[0] + ",\n" + Block(items[1..]) + ("  " + item + ",\n");
    }
  }

  lemma LineStartIs(text: string, close: nat, line: nat)
    requires line <= close <= |text| && (line > 0 ==> text[line - 1] == '\n') && '\n' !in text[line..close]
    ensures LineStart(text, close) == line
  {
    var start := LineStart(text, close);
    if start < line {
      LineEndIn(text, start, line - 1, close);
    } else if line < start {
      LineEndIn(text, line, start - 1, close);
    }
  }

  lemma LineEndIn(text: string, from: nat, k: nat, to: nat)
    requires from <= k < to <= |text| && text[k] == '\n'
    ensures '\n' in text[from..to]
  {
    assert text[from..to][k - from] == '\n';
  }

  /**
    The old text stays around what is inserted: with only space before the closing bracket on its line,
    the entries are lines of their own above it; otherwise they follow the last significant character.
    A comma separates them from it, unless the array is empty or there is one.
  */
  lemma OldTextStays(text: string, close: nat, last: nat, items: seq<string>, line: nat)
    requires last < close < |text| && !IsSpace(text[last])
    requires line <= close && (line > 0 ==> text[line - 1] == '\n') && '\n' !in text[line..close]
    ensures var comma := if text[last] == '[' || text[last] == ',' then "" else ",";
      var out := WithItems(text, close, last, items);
      if forall k :: line <= k < close ==> IsSpace(text[k])
      then last < line && out == text[..last + 1] + comma + text[last + 1..line] + Block(items) + text[line..]
      else out == text[..last + 1] + comma + " " + Inline(items) + text[last + 1..]
  {
    LineStartIs(text, close, line);
  }

  /** The text of one entry: closed code without brackets that splits as a single element. */
  ghost predicate WellFormedItem(item: string) {
    && Insertable(item)
    && Tokens(Code, item) != []
    && item[0] != '#' && !IsSpace(item[0])
    && forall done :: TakeAll(Split(1, [], done), Tokens(Code, item)) == Split(1, Tokens(Code, item), done)
  }

  ghost predicate AllWellFormed(items: seq<string>)
    decreases items
  {
    items == [] || (WellFormedItem(items[0]) && AllWellFormed(items[1..]))
  }

  function ItemTokens(items: seq<string>): seq<seq<Token>> {
    seq(|items|, i requires 0 <= i < |items| => Tokens(Code, items[i]))
  }

  lemma InsertableAppend(a: string, b: string)
    requires Insertable(a) && Lex(Code, b) == Code && NoBrackets(Tokens(Code, b))
    ensures Insertable(a + b) && Tokens(Code, a + b) == Tokens(Code, a) + Tokens(Code, b)
  {
    LexAppend(Code, a, b);
    TokensAppend(Code, a, b);
  }

  lemma Separators()
    ensures Insertable(", ") && Tokens(Code, ", ") == [Token(',', true)]
    ensures Insertable(",") && Tokens(Code, ",") == [Token(',', true)]
    ensures Tokens(Code, "") == []
    ensures Insertable(" ") && Tokens(Code, " ") == []
    ensures Insertable("  ") && Tokens(Code, "  ") == []
    ensures Insertable(",\n") && Tokens(Code, ",\n") == [Token(',', true)]
  {
    assert ","[1..] == "" && " "[1..] == "";
    assert ", "[1..] == " " && "  "[1..] == " " && ",\n"[1..] == "\n" && "\n"[1..] == "";
  }

  /** An entry, a separating comma, and what follows it: the entry splits off as one element. */
  lemma EntrySplitsOff(item: string, separator: string, more: string, done: seq<seq<Token>>)
    requires WellFormedItem(item) && separator in {", ", ",\n"}
    requires Lex(Code, more) == Code && NoBrackets(Tokens(Code, more))
    ensures Insertable(item + (separator + more))
    ensures TakeAll(Split(1, [], done), Tokens(Code, item + (separator + more)))
         == TakeAll(Split(1, [], done + [Tokens(Code, item)]), Tokens(Code, more))
  {
    Separators();
    InsertableAppend(separator, more);
    InsertableAppend(item, separator + more);
    var tokens, comma := Tokens(Code, item), [Token(',', true)];
    TakeAllAppend(Split(1, [], done), tokens, comma + Tokens(Code, more));
    TakeAllAppend(Split(1, tokens, done), comma, Tokens(Code, more));
    TakeOne(Split(1, tokens, done), comma[0]);
  }

  lemma ItemTokensCons(items: seq<string>)
    requires items != []
    ensures ItemTokens(items) == [Tokens(Code, items[0])] + ItemTokens(items[1..])
  {
  }

  lemma InlineStep(items: seq<string>, done: seq<seq<Token>>)
    requires |items| > 1 && WellFormedItem(items[0])
    requires Lex(Code, Inline(items[1..])) == Code && NoBrackets(Tokens(Code, Inline(items[1..])))
    requires TakeAll(Split(1, [], done + [Tokens(Code, items[0])]), Tokens(Code, Inline(items[1..])))
          == Split(1, Tokens(Code, items[|items| - 1]), done + [Tokens(Code, items[0])]
              + ItemTokens(items[1..|items| - 1]))
    ensures Insertable(Inline(items))
    ensures TakeAll(Split(1, [], done), Tokens(Code, Inline(items)))
         == Split(1, Tokens(Code, items[|items| - 1]), done + ItemTokens(items[..|items| - 1]))
  {
    InlineUnfold(items);
    InitTokens(items, done);
    EntrySplitsOff(items[0], ", ", Inline(items[1..]), done);
  }

  lemma InlineUnfold(items: seq<string>)
    requires |items| > 1
    ensures Inline(items) == items[0] + (", " + Inline(items[1..]))
  {
  }

  lemma InitTokens(items: seq<string>, done: seq<seq<Token>>)
    requires |items| > 1
    ensures done + [Tokens(Code, items[0])] + ItemTokens(items[1..|items| - 1])
              == done + ItemTokens(items[..|items| - 1])
  {
    ItemTokensCons(items[..|items| - 1]);
    assert items[..|items| - 1][1..] == items[1..|items| - 1];
  }

  lemma {:induction false} InlineSplits(items: seq<string>, done: seq<seq<Token>>)
    requires items != [] && AllWellFormed(items)
    ensures Insertable(Inline(items))
    ensures TakeAll(Split(1, [], done), Tokens(Code, Inline(items)))
         == Split(1, Tokens(Code, items[|items| - 1]), done + ItemTokens(items[..|items| - 1]))
    decreases items
  {
    if |items| == 1 {
      assert ItemTokens(items[..0]) == [] && done + [] == done;
    } else {
      var rest := items[1..];
      InlineSplits(rest, done + [Tokens(Code, items[0])]);
      assert rest[..|rest| - 1] == items[1..|items| - 1];
      InlineStep(items, done);
    }
  }

  lemma BlockStep(items: seq<string>, done: seq<seq<Token>>)
    requires items != [] && WellFormedItem(items[0])
    requires Lex(Code, Block(items[1..])) == Code && NoBrackets(Tokens(Code, Block(items[1..])))
    ensures Insertable(Block(items))
    ensures TakeAll(Split(1, [], done), Tokens(Code, Block(items)))
         == TakeAll(Split(1, [], done + [Tokens(Code, items[0])]), Tokens(Code, Block(items[1..])))
  {
    BlockUnfold(items);
    var entry := items[0] + (",\n" + Block(items[1..]));
    EntrySplitsOff(items[0], ",\n", Block(items[1..]), done);
    Separators();
    InsertableAppend("  ", entry);
    assert Tokens(Code, "  " + entry) == Tokens(Code, entry);
  }

  lemma BlockUnfold(items: seq<string>)
    requires items != []
    ensures Block(items) == "  " + (items[0] + (",\n" + Block(items[1..])))
  {
  }

  lemma {:induction false} BlockSplits(items: seq<string>, done: seq<seq<Token>>)
    requires AllWellFormed(items)
    ensures Lex(Code, Block(items)) == Code && NoBrackets(Tokens(Code, Block(items)))
    ensures items != [] ==> Insertable(Block(items))
    ensures TakeAll(Split(1, [], done), Tokens(Code, Block(items))) == Split(1, [], done + ItemTokens(items))
    decreases items
  {
    if items == [] {
      assert done + ItemTokens(items) == done;
    } else {
      BlockSplits(items[1..], done + [Tokens(Code, items[0])]);
      BlockStep(items, done);
      ItemTokensCons(items);
      assert done + [Tokens(Code, items[0])] + ItemTokens(items[1..]) == done + ItemTokens(items);
    }
  }

  // ---------------------------------------------------------------------------------------------
  // The inserted entries are the array's last elements
  // ---------------------------------------------------------------------------------------------

  predicate HoldsQuote(lexer: Lexer) {
    match lexer
    case Opened(quote, _) => IsQuote(quote)
    case Quoted(quote) => IsQuote(quote)
    case Tripled(quote, _) => IsQuote(quote)
    case _ => true
  }

  lemma {:induction false} LexHoldsQuote(lexer: Lexer, text: string)
    requires HoldsQuote(lexer)
    ensures HoldsQuote(Lex(lexer, text))
    decreases text
  {
    if text != "" {
      LexHoldsQuote(Advance(lexer, text[0]), text[1..]);
    }
  }

  lemma LexerNext(text: string, start: nat, k: nat)
    requires start <= k < |text|
    ensures LexerAt(text, start, k + 1) == Advance(LexerAt(text, start, k), text[k])
  {
    assert text[start..k + 1] == text[start..k] + [text[k]];
    LexAppend(Code, text[start..k], [text[k]]);
    LexOne(LexerAt(text, start, k), text[k]);
  }

  lemma {:induction false} QuietFromBounds(text: string, start: nat, p: nat, close: nat)
    requires start <= p <= close < |text|
    requires forall k :: p <= k < close ==> !SignificantAt(text, start, k)
    ensures Quiet(LexerAt(text, start, p), text[p..close])
    ensures Lex(LexerAt(text, start, p), text[p..close]) == LexerAt(text, start, close)
    decreases close - p
  {
    if p < close {
      assert !SignificantAt(text, start, p);
      assert text[p..close][1..] == text[p + 1..close];
      LexerNext(text, start, p);
      QuietFromBounds(text, start, p + 1, close);
    }
  }

  /** `(close, last)` are the bounds of the array at `start`; that they lie in order is [BoundsMeaning]. */
  ghost predicate Bounded(text: string, start: nat, close: nat, last: nat) {
    && start <= last < close < |text|
    && text[start] == '['
    && Bounds(text, start) == Some((close, last))
  }

  /** Just past the last significant character, only comments and space stand before the close. */
  lemma BoundsGiveQuietTail(text: string, start: nat, close: nat, last: nat)
    requires Bounded(text, start, close, last)
    ensures !IsSpace(text[last]) && QuietTail(text, start, last + 1, close)
    ensures IsSignificant(LexerAt(text, start, last), text[last])
  {
    BoundsMeaning(text, start);
    QuietFromBounds(text, start, last + 1, close);
    LexerNext(text, start, last);
    LexHoldsQuote(Code, text[start..last]);
    var lexer := LexerAt(text, start, last + 1);
    assert ClosesAt(text, start, close) && Ready(LexerAt(text, start, close));
    assert Ready(lexer) by {
      if last + 1 < close {
        assert !SignificantAt(text, start, last + 1);
      }
    }
    DepthOneAfterLast(text, start, close, last);
  }

  lemma DepthOneAfterLast(text: string, start: nat, close: nat, last: nat)
    requires start <= last < close < |text| && ClosesAt(text, start, close)
    requires forall k :: start <= k < close ==> !ClosesAt(text, start, k)
    requires Quiet(LexerAt(text, start, last + 1), text[last + 1..close])
    ensures Steps(Start(start), text[start..last + 1]).Open? && Steps(Start(start), text[start..last + 1]).depth == 1
  {
    var before := ScanPrefix(text, start, last + 1);
    var after := ScanPrefix(text, start, close);
    QuietRun(LexerAt(text, start, last + 1), text[last + 1..close], DepthAt(text, start, last + 1), last + 1, before);
    assert text[start..close] == text[start..last + 1] + text[last + 1..close];
    StepsAppend(Start(start), text[start..last + 1], text[last + 1..close]);
  }

  lemma QuietBeforeNewline(lexer: Lexer, quiet: string)
    requires quiet != "" && Quiet(lexer, quiet) && quiet[|quiet| - 1] == '\n'
    ensures Lex(lexer, quiet) == Code
    decreases quiet
  {
    if |quiet| > 1 {
      QuietBeforeNewline(Advance(lexer, quiet[0]), quiet[1..]);
    } else {
      assert quiet == [quiet[0]];
      LexOne(lexer, quiet[0]);
    }
  }

  lemma {:induction false} QuietSplits(lexer: Lexer, a: string, b: string)
    requires Quiet(lexer, a + b)
    ensures Quiet(lexer, a) && Quiet(Lex(lexer, a), b)
    decreases a
  {
    if a == "" {
      assert a + b == b;
    } else {
      assert (a + b)[1..] == a[1..] + b;
      QuietSplits(Advance(lexer, a[0]), a[1..], b);
    }
  }

  /** The quiet tail may be entered later, at the start of any of its lines. */
  lemma QuietTailFromLine(text: string, start: nat, p: nat, line: nat, close: nat)
    requires QuietTail(text, start, p, close) && p < line <= close && text[line - 1] == '\n'
    ensures QuietTail(text, start, line, close)
    ensures Tokens(Code, text[start..line]) == Tokens(Code, text[start..p])
  {
    var lexer, a, b := LexerAt(text, start, p), text[p..line], text[line..close];
    assert text[p..close] == a + b && text[start..line] == text[start..p] + a;
    QuietSplits(lexer, a, b);
    QuietBeforeNewline(lexer, a);
    LexAppend(Code, text[start..p], a);
    LexAppend(lexer, a, b);
    var last := ScanState(text, start, p);
    QuietRun(lexer, a, 1, p, last);
    StepsAppend(Start(start), text[start..p], a);
    QuietAddsNoToken(text, start, p, line);
  }

  /** Between elements a comma adds nothing; inside one it ends it. */
  lemma CommaEndsElement(before: Split, token: Token)
    requires token.c in {'[', ','} ==> token.code
    requires Take(before, token).depth == 1
    ensures var split := Take(before, token);
      TakeAll(split, Tokens(Code, Comma(token.c)))
        == Split(1, [], split.done + (if split.current == [] then [] else [split.current]))
  {
    Separators();
    var split := Take(before, token);
    if Comma(token.c) == "" {
      assert split.done + [] == split.done;
    } else {
      TakeOne(split, Token(',', true));
    }
  }

  lemma TailAddsNoToken(text: string, start: nat, close: nat, last: nat)
    requires Bounded(text, start, close, last)
    ensures Tokens(Code, text[start..close]) == Tokens(Code, text[start..last + 1])
  {
    hide Steps, Bounds;
    BoundsGiveQuietTail(text, start, close, last);
    QuietRun(LexerAt(text, start, last + 1), text[last + 1..close], 0, 0, 0);
    QuietAddsNoToken(text, start, last + 1, close);
  }

  lemma LastToken(text: string, start: nat, close: nat, last: nat)
    requires Bounded(text, start, close, last)
    ensures Tokens(Code, text[start..close])
         == Tokens(Code, text[start..last]) + [Token(text[last], IsCode(LexerAt(text, start, last), text[last]))]
    ensures text[last] in {'[', ','} ==> IsCode(LexerAt(text, start, last), text[last])
  {
    hide Steps, Bounds, Quiet;
    BoundsGiveQuietTail(text, start, close, last);
    TailAddsNoToken(text, start, close, last);
    var lexer, c := LexerAt(text, start, last), text[last];
    assert text[start..last + 1] == text[start..last] + [c];
    TokensAppend(Code, text[start..last], [c]);
    TokensOne(lexer, c);
    LexerNext(text, start, last);
    LexHoldsQuote(Code, text[start..last]);
  }

  lemma TokensOne(lexer: Lexer, c: char)
    ensures Tokens(lexer, [c]) == if IsSignificant(lexer, c) then [Token(c, IsCode(lexer, c))] else []
  {
    assert [c][1..] == "";
  }

  /** Where the array stands after its last significant character and the comma put there. */
  lemma CommaCloses(text: string, start: nat, close: nat, last: nat)
    requires Bounded(text, start, close, last) && SplitOf(text, start, close).depth == 1
    ensures TakeAll(SplitOf(text, start, close), Tokens(Code, Comma(text[last])))
         == Split(1, [], Elements(text, start, close))
  {
    LastToken(text, start, close, last);
    var token := Token(text[last], IsCode(LexerAt(text, start, last), text[last]));
    var before := TakeAll(Split(0, [], []), Tokens(Code, text[start..last]));
    TakeAllAppend(Split(0, [], []), Tokens(Code, text[start..last]), [token]);
    TakeOne(before, token);
    CommaEndsElement(before, token);
  }

  /** The new text's tokens up to its close: the old array's, the comma, and what was added. */
  lemma ElementsExtend(text: string, out: string, start: nat, close: nat, newClose: nat, last: nat, added: seq<Token>)
    requires Bounded(text, start, close, last) && SplitOf(text, start, close).depth == 1
    requires start <= newClose <= |out|
    requires Tokens(Code, out[start..newClose])
              == Tokens(Code, text[start..close]) + Tokens(Code, Comma(text[last])) + added
    ensures SplitOf(out, start, newClose) == TakeAll(Split(1, [], Elements(text, start, close)), added)
  {
    CommaCloses(text, start, close, last);
    var before, comma := Tokens(Code, text[start..close]), Tokens(Code, Comma(text[last]));
    TakeAllAppend(Split(0, [], []), before + comma, added);
    TakeAllAppend(Split(0, [], []), before, comma);
  }

  /** `out` is `text` with `items` as the last elements of the array at `start`. */
  ghost predicate Appends(text: string, start: nat, close: nat, items: seq<string>, out: string) {
    && start <= close < |text| <= |out|
    && var newClose := close + (|out| - |text|);
    && Bounds(out, start).Some? && Bounds(out, start).value.0 == newClose
    && Elements(out, start, newClose) == Elements(text, start, close) + ItemTokens(items)
  }

  lemma AppendsFrom(text: string, out: string, start: nat, close: nat, newClose: nat, last: nat, items: seq<string>,
                    added: seq<Token>, split: Split)
    requires Bounded(text, start, close, last) && SplitOf(text, start, close).depth == 1
    requires ClosesAtIndex(out, start, newClose) && |out| == |text| + (newClose - close) && close <= newClose
    requires Tokens(Code, out[start..newClose])
          == Tokens(Code, text[start..close]) + Tokens(Code, Comma(text[last])) + added
    requires split == TakeAll(Split(1, [], Elements(text, start, close)), added)
    requires split.done + (if split.current == [] then [] else [split.current])
          == Elements(text, start, close) + ItemTokens(items)
    ensures Appends(text, start, close, items, out)
  {
    ElementsExtend(text, out, start, close, newClose, last, added);
  }

  ghost predicate ClosesAtIndex(text: string, start: nat, close: nat) {
    start <= close < |text| && Bounds(text, start).Some? && Bounds(text, start).value.0 == close
  }

  lemma QuietTailCloses(text: string, start: nat, p: nat, close: nat)
    requires QuietTail(text, start, p, close)
    ensures ClosesAtIndex(text, start, close)
  {
  }

  /**
    Appending entries to an array by either shape: the array's text still closes at its own bracket,
    and its elements are the old ones followed by the new entries, so no inserted entry disappears
    into a comment, a string or an old element.  (Braces in the old text must balance, as in any
    text that parses.)
  */
  lemma InsertedEntriesFollow(text: string, start: nat, close: nat, last: nat, items: seq<string>)
    requires Bounded(text, start, close, last) && SplitOf(text, start, close).depth == 1
    requires items != [] && AllWellFormed(items)
    ensures !IsSpace(text[last])
    ensures Appends(text, start, close, items, WithItems(text, close, last, items))
  {
    BoundsGiveQuietTail(text, start, close, last);
    var lineStart := LineStart(text, close);
    if !IsBlank(text, lineStart, close) {
      InlineFollows(text, start, close, last, items);
    } else {
      BlockFollows(text, start, close, last, lineStart, items);
    }
  }

  lemma InlineFollows(text: string, start: nat, close: nat, last: nat, items: seq<string>)
    requires Bounded(text, start, close, last) && SplitOf(text, start, close).depth == 1
    requires items != [] && AllWellFormed(items)
    ensures Appends(text, start, close, items, text[..last + 1] + Comma(text[last]) + " " + Inline(items)
              + text[last + 1..])
  {
    var done := Elements(text, start, close);
    InlineSplits(items, done);
    LastItemCloses(items, done);
    InlineFollowsFrom(text, start, close, last, Inline(items), items,
                      Split(1, Tokens(Code, items[|items| - 1]), done + ItemTokens(items[..|items| - 1])));
  }

  lemma InlineFollowsFrom(text: string, start: nat, close: nat, last: nat, inline: string, items: seq<string>,
      split: Split)
    requires Bounded(text, start, close, last) && SplitOf(text, start, close).depth == 1
    requires Insertable(inline)
    requires split == TakeAll(Split(1, [], Elements(text, start, close)), Tokens(Code, inline))
    requires split.done + (if split.current == [] then [] else [split.current])
          == Elements(text, start, close) + ItemTokens(items)
    ensures Appends(text, start, close, items, text[..last + 1] + Comma(text[last]) + " " + inline + text[last + 1..])
  {
    InlineInserted(text, start, close, last, inline);
    InlineText(text, last, Comma(text[last]), inline);
    var insert := Comma(text[last]) + (" " + inline);
    AppendsFrom(text, Inserted(text, last + 1, insert), start, close, close + |insert|, last, items,
        Tokens(Code, inline), split);
  }

  lemma InlineInserted(text: string, start: nat, close: nat, last: nat, inline: string)
    requires Bounded(text, start, close, last) && Insertable(inline)
    ensures var insert := Comma(text[last]) + (" " + inline);
      && |Inserted(text, last + 1, insert)| == |text| + |insert|
      && ClosesAtIndex(Inserted(text, last + 1, insert), start, close + |insert|)
      && Tokens(Code, Inserted(text, last + 1, insert)[start..close + |insert|])
         == Tokens(Code, text[start..close]) + Tokens(Code, Comma(text[last])) + Tokens(Code, inline)
  {
    hide QuietTail, ClosesAtIndex, Inserted, Insertable, Tokens;
    BoundsGiveQuietTail(text, start, close, last);
    SpaceThen(inline);
    CommaThen(Comma(text[last]), " " + inline);
    var insert := Comma(text[last]) + (" " + inline);
    InsertInQuietTail(text, start, last + 1, close, insert);
    QuietTailCloses(Inserted(text, last + 1, insert), start, last + 1 + |insert|, close + |insert|);
  }

  lemma InlineText(text: string, last: nat, comma: string, inline: string)
    requires last < |text|
    ensures Inserted(text, last + 1, comma + (" " + inline))
              == text[..last + 1] + comma + " " + inline + text[last + 1..]
  {
  }

  lemma SpaceThen(inline: string)
    requires Insertable(inline)
    ensures Insertable(" " + inline) && Tokens(Code, " " + inline) == Tokens(Code, inline)
  {
    Separators();
    InsertableAppend(" ", inline);
  }

  lemma {:induction false} LastWellFormed(items: seq<string>)
    requires items != [] && AllWellFormed(items)
    ensures WellFormedItem(items[|items| - 1])
    decreases items
  {
    if |items| > 1 {
      LastWellFormed(items[1..]);
    }
  }

  lemma ItemTokensSnoc(items: seq<string>, done: seq<seq<Token>>)
    requires items != []
    ensures done + ItemTokens(items[..|items| - 1]) + [Tokens(Code, items[|items| - 1])] == done + ItemTokens(items)
  {
    assert ItemTokens(items) == ItemTokens(items[..|items| - 1]) + [Tokens(Code, items[|items| - 1])];
  }

  lemma LastItemCloses(items: seq<string>, done: seq<seq<Token>>)
    requires items != [] && AllWellFormed(items)
    ensures Tokens(Code, items[|items| - 1]) != []
    ensures done + ItemTokens(items[..|items| - 1]) + [Tokens(Code, items[|items| - 1])] == done + ItemTokens(items)
  {
    LastWellFormed(items);
    ItemTokensSnoc(items, done);
  }

  lemma CommaThen(comma: string, more: string)
    requires comma in {"", ","} && Insertable(more)
    ensures Insertable(comma + more) && Tokens(Code, comma + more) == Tokens(Code, comma) + Tokens(Code, more)
  {
    Separators();
    if comma == "" {
      assert comma + more == more;
    } else {
      InsertableAppend(comma, more);
    }
  }

  /** The array's text with the comma put after its last significant character. */
  lemma CommaFirst(text: string, start: nat, close: nat, last: nat) returns (text1: string)
    requires Bounded(text, start, close, last)
    ensures var comma := Comma(text[last]);
      && text1 == Inserted(text, last + 1, comma) && |text1| == |text| + |comma|
      && QuietTail(text1, start, last + 1 + |comma|, close + |comma|)
      && Tokens(Code, text1[start..close + |comma|]) == Tokens(Code, text[start..close]) + Tokens(Code, comma)
  {
    hide QuietTail, Bounds, Insertable, Tokens;
    BoundsGiveQuietTail(text, start, close, last);
    var comma := Comma(text[last]);
    text1 := Inserted(text, last + 1, comma);
    Separators();
    if comma == "" {
      assert text1 == text;
    } else {
      InsertInQuietTail(text, start, last + 1, close, comma);
    }
  }

  lemma BlockText(text: string, last: nat, line: nat, comma: string, block: string)
    requires last < line <= |text|
    ensures |Inserted(text, last + 1, comma)| == |text| + |comma|
    ensures Inserted(text, last + 1, comma)[line + |comma| - 1] ==
            if last + 1 < line then text[line - 1] else (text[..last + 1] + comma)[|comma| + last]
    ensures Inserted(Inserted(text, last + 1, comma), line + |comma|, block)
         == text[..last + 1] + comma + text[last + 1..line] + block + text[line..]
  {
    var text1 := Inserted(text, last + 1, comma);
    assert text1[..line + |comma|] == text[..last + 1] + comma + text[last + 1..line];
    assert text1[line + |comma|..] == text[line..];
  }

  lemma BlockFollows(text: string, start: nat, close: nat, last: nat, line: nat, items: seq<string>)
    requires Bounded(text, start, close, last) && SplitOf(text, start, close).depth == 1
    requires last < line <= close && text[line - 1] == '\n' && !IsSpace(text[last])
    requires items != [] && AllWellFormed(items)
    ensures Appends(text, start, close, items,
                    text[..last + 1] + Comma(text[last]) + text[last + 1..line] + Block(items) + text[line..])
  {
    var done := Elements(text, start, close);
    BlockSplits(items, done);
    BlockFollowsFrom(text, start, close, last, line, Block(items), items, Split(1, [], done + ItemTokens(items)));
  }

  lemma BlockFollowsFrom(text: string, start: nat, close: nat, last: nat, line: nat, block: string,
      items: seq<string>, split: Split)
    requires Bounded(text, start, close, last) && SplitOf(text, start, close).depth == 1
    requires last < line <= close && text[line - 1] == '\n' && !IsSpace(text[last])
    requires Insertable(block)
    requires split == TakeAll(Split(1, [], Elements(text, start, close)), Tokens(Code, block))
    requires split.done + (if split.current == [] then [] else [split.current])
          == Elements(text, start, close) + ItemTokens(items)
    ensures Appends(text, start, close, items,
                    text[..last + 1] + Comma(text[last]) + text[last + 1..line] + block + text[line..])
  {
    var out, newClose := BlockPlaced(text, start, close, last, line, block);
    AppendsFrom(text, out, start, close, newClose, last, items, Tokens(Code, block), split);
  }

  lemma BlockPlaced(text: string, start: nat, close: nat, last: nat, line: nat, block: string)
      returns (out: string, newClose: nat)
    requires Bounded(text, start, close, last) && Insertable(block)
    requires last < line <= close && text[line - 1] == '\n' && !IsSpace(text[last])
    ensures out == text[..last + 1] + Comma(text[last]) + text[last + 1..line] + block + text[line..]
    ensures ClosesAtIndex(out, start, newClose) && |out| == |text| + (newClose - close) && close <= newClose
    ensures Tokens(Code, out[start..newClose])
         == Tokens(Code, text[start..close]) + Tokens(Code, Comma(text[last])) + Tokens(Code, block)
  {
    hide QuietTail, ClosesAtIndex, Bounds, Insertable, Inserted, Tokens, Comma;
    var shift := |Comma(text[last])|;
    var text1 := CommaFirst(text, start, close, last);
    assert last + 1 < line;
    BlockText(text, last, line, Comma(text[last]), block);
    BlockInserted(text1, start, last + 1 + shift, close + shift, line + shift, block);
    out, newClose := Inserted(text1, line + shift, block), close + shift + |block|;
  }

  /** A block put at the start of a line of the quiet tail. */
  lemma BlockInserted(text: string, start: nat, p: nat, close: nat, line: nat, block: string)
    requires QuietTail(text, start, p, close) && Insertable(block)
    requires p < line <= close < |text| && text[line - 1] == '\n'
    ensures |Inserted(text, line, block)| == |text| + |block|
    ensures ClosesAtIndex(Inserted(text, line, block), start, close + |block|)
    ensures Tokens(Code, Inserted(text, line, block)[start..close + |block|])
         == Tokens(Code, text[start..close]) + Tokens(Code, block)
  {
    hide Inserted, Tokens, QuietTail, ClosesAtIndex, Insertable;
    QuietTailFromLine(text, start, p, line, close);
    InsertInQuietTail(text, start, line, close, block);
    QuietTailCloses(Inserted(text, line, block), start, line + |block|, close + |block|);
  }

  // ---------------------------------------------------------------------------------------------
  // The entries that are inserted
  // ---------------------------------------------------------------------------------------------

  /** Nothing that could end a basic string early. */
  predicate IsClean(text: string) {
    '"' !in text && '\\' !in text
  }

  /** A recommendation as an inline table: `when` is left out when empty. */
  function Item(host: string, why: string, when: string): string {
    "{" + ItemBody(host, why, when) + "}"
  }

  function ItemBody(host: string, why: string, when: string): string {
    " host = " + ("\"" + host + "\"" + (", why = " + ("\"" + why + "\"" + ItemTail(when))))
  }

  function ItemTail(when: string): string {
    if when == "" then " " else ", when = " + ("\"" + when + "\"" + " ")
  }

  predicate IsPlain(text: string) {
    forall i :: 0 <= i < |text| ==> text[i] !in {'"', '\'', '#', '[', ']', '{', '}'}
  }

  /** Closed code whose tokens nest nothing. */
  predicate IsInner(text: string) {
    && Lex(Code, text) == Code
    && forall i :: 0 <= i < |Tokens(Code, text)| && Tokens(Code, text)[i].code
         ==> Tokens(Code, text)[i].c !in {'[', ']', '{', '}'}
  }

  lemma InnerAppend(a: string, b: string)
    requires IsInner(a) && IsInner(b)
    ensures IsInner(a + b)
  {
    LexAppend(Code, a, b);
    TokensAppend(Code, a, b);
  }

  lemma {:induction false} PlainIsInner(text: string)
    requires IsPlain(text)
    ensures IsInner(text)
    decreases text
  {
    if text != "" {
      assert text[0] !in {'"', '\'', '#', '[', ']', '{', '}'};
      PlainIsInner(text[1..]);
      var rest := Tokens(Code, text[1..]);
      assert Tokens(Code, text) == if IsSpace(text[0]) then rest else [Token(text[0], true)] + rest;
    }
  }

  lemma {:induction false} QuotedThen(content: string, more: string)
    requires IsClean(content) && IsInner(more)
    ensures Lex(Quoted('"'), content + "\"" + more) == Code
    ensures var tokens := Tokens(Quoted('"'), content + "\"" + more);
      forall i :: 0 <= i < |tokens| && tokens[i].code ==> tokens[i].c !in {'[', ']', '{', '}'}
    decreases content
  {
    var text := content + "\"" + more;
    if content == "" {
      assert text[1..] == more;
      assert Tokens(Quoted('"'), text) == [Token('"', false)] + Tokens(Code, more);
    } else {
      assert content[0] in content && forall c :: c in content[1..] ==> c in content;
      assert text[1..] == content[1..] + "\"" + more;
      QuotedThen(content[1..], more);
      assert Tokens(Quoted('"'), text) == [Token(text[0], false)] + Tokens(Quoted('"'), text[1..]);
    }
  }

  lemma StringThen(content: string, more: string)
    requires IsClean(content) && IsInner(more) && more != "" && !IsQuote(more[0])
    ensures IsInner("\"" + content + "\"" + more)
  {
    var text := "\"" + content + "\"" + more;
    var rest := content + "\"" + more;
    assert text[1..] == rest;
    assert Tokens(Code, text) == [Token('"', false)] + Tokens(Opened('"', false), rest);
    QuotedThen(content, more);
    if content == "" {
      assert rest[1..] == more;
      ReadyIsCode(Opened('"', true), more, 0, 0, 0);
      assert Tokens(Opened('"', false), rest) == [Token('"', false)] + Tokens(Code, more);
    } else {
      assert content[0] in content && rest[0] == content[0];
      assert Advance(Opened('"', false), rest[0]) == Advance(Quoted('"'), rest[0]);
      assert Tokens(Opened('"', false), rest) == Tokens(Quoted('"'), rest);
    }
  }

  lemma WhyKeyIsInner()
    ensures IsInner(", why = ")
  {
    PlainIsInner(", why = ");
  }

  lemma WhenKeyIsInner()
    ensures IsInner(", when = ")
  {
    PlainIsInner(", when = ");
  }

  lemma KeysAreInner()
    ensures IsInner(" ") && IsInner(" host = ") && IsInner(", why = ") && IsInner(", when = ")
  {
    PlainIsInner(" ");
    PlainIsInner(" host = ");
    WhyKeyIsInner();
    WhenKeyIsInner();
  }

  /** A key and its quoted value, before text that starts neither. */
  lemma FieldThen(key: string, content: string, more: string)
    requires IsInner(key) && IsClean(content) && IsInner(more) && more != "" && !IsQuote(more[0])
    ensures IsInner(key + ("\"" + content + "\"" + more))
  {
    StringThen(content, more);
    InnerAppend(key, "\"" + content + "\"" + more);
  }

  lemma ItemTailIsInner(when: string)
    requires IsClean(when)
    ensures IsInner(ItemTail(when)) && ItemTail(when) != "" && !IsQuote(ItemTail(when)[0])
  {
    KeysAreInner();
    if when != "" {
      FieldThen(", when = ", when, " ");
    }
  }

  lemma ItemBodyIsInner(host: string, why: string, when: string)
    requires IsClean(host) && IsClean(why) && IsClean(when)
    ensures IsInner(ItemBody(host, why, when))
  {
    KeysAreInner();
    ItemTailIsInner(when);
    FieldThen(", why = ", why, ItemTail(when));
    FieldThen(" host = ", host, ", why = " + ("\"" + why + "\"" + ItemTail(when)));
  }

  lemma {:induction false} TakeInner(depth: int, current: seq<Token>, done: seq<seq<Token>>, tokens: seq<Token>)
    requires depth >= 2
    requires forall i :: 0 <= i < |tokens| && tokens[i].code ==> tokens[i].c !in {'[', ']', '{', '}'}
    ensures TakeAll(Split(depth, current, done), tokens) == Split(depth, current + tokens, done)
    decreases tokens
  {
    if tokens != [] {
      TakeInner(depth, current + [tokens[0]], done, tokens[1..]);
      assert current + [tokens[0]] + tokens[1..] == current + tokens;
    } else {
      assert current + tokens == current;
    }
  }

  lemma Braces()
    ensures Tokens(Code, "{") == [Token('{', true)] && Lex(Code, "{") == Code
    ensures Tokens(Code, "}") == [Token('}', true)] && Lex(Code, "}") == Code
  {
    TokensOne(Code, '{');
    TokensOne(Code, '}');
    LexOne(Code, '{');
    LexOne(Code, '}');
  }

  lemma BracedSplits(body: string, done: seq<seq<Token>>)
    requires IsInner(body)
    ensures Tokens(Code, "{" + body + "}") == [Token('{', true)] + Tokens(Code, body) + [Token('}', true)]
    ensures Lex(Code, "{" + body + "}") == Code
    ensures TakeAll(Split(1, [], done), Tokens(Code, "{" + body + "}"))
              == Split(1, Tokens(Code, "{" + body + "}"), done)
  {
    hide Advance, IsSignificant, IsCode, Tokens, Lex;
    var open, close, inner := [Token('{', true)], [Token('}', true)], Tokens(Code, body);
    Braces();
    TokensAppend(Code, "{", body);
    TokensAppend(Code, "{" + body, "}");
    LexAppend(Code, "{", body);
    LexAppend(Code, "{" + body, "}");
    TakeAllAppend(Split(1, [], done), open + inner, close);
    TakeAllAppend(Split(1, [], done), open, inner);
    TakeOne(Split(1, [], done), open[0]);
    TakeInner(2, [] + open, done, inner);
    TakeOne(Split(2, [] + open + inner, done), close[0]);
  }

  /** The entries the edit writes are well formed whenever host, reason and scope are clean. */
  lemma ItemIsWellFormed(host: string, why: string, when: string)
    requires IsClean(host) && IsClean(why) && IsClean(when)
    ensures WellFormedItem(Item(host, why, when))
  {
    var body := ItemBody(host, why, when);
    ItemBodyIsInner(host, why, when);
    forall done
      ensures TakeAll(Split(1, [], done), Tokens(Code, "{" + body + "}"))
           == Split(1, Tokens(Code, "{" + body + "}"), done)
    {
      BracedSplits(body, done);
    }
    BracedSplits(body, []);
  }

  function BeforeQuote(text: string): string {
    if text == "" || text[0] == '"' then "" else [text[0]] + BeforeQuote(text[1..])
  }

  function AfterQuote(text: string): string {
    if text == "" then "" else if text[0] == '"' then text[1..] else AfterQuote(text[1..])
  }

  /** The contents of the double-quoted strings of a text without escapes, in order. */
  function QuotedStrings(text: string): seq<string>
    decreases |text|
  {
    AfterQuoteShorter(text);
    AfterQuoteShorter(AfterQuote(text));
    if '"' !in text then []
    else [BeforeQuote(AfterQuote(text))] + QuotedStrings(AfterQuote(AfterQuote(text)))
  }

  lemma {:induction false} AfterQuoteShorter(text: string)
    ensures |AfterQuote(text)| <= |text| && (text != "" ==> |AfterQuote(text)| < |text|)
  {
    if text != "" && text[0] != '"' {
      AfterQuoteShorter(text[1..]);
    }
  }

  lemma {:induction false} SplitsAtQuote(head: string, tail: string)
    requires '"' !in head
    ensures BeforeQuote(head + "\"" + tail) == head && AfterQuote(head + "\"" + tail) == tail
  {
    var text := head + "\"" + tail;
    if head == "" {
      assert text[1..] == tail;
    } else {
      assert head[0] in head && text[0] == head[0];
      assert text[1..] == head[1..] + "\"" + tail;
      SplitsAtQuote(head[1..], tail);
      assert [head[0]] + head[1..] == head;
    }
  }

  lemma OneString(key: string, content: string, more: string)
    requires '"' !in key && '"' !in content
    ensures QuotedStrings(key + ("\"" + content + "\"" + more)) == [content] + QuotedStrings(more)
  {
    var text := key + ("\"" + content + "\"" + more);
    assert text == key + "\"" + (content + "\"" + more);
    assert text[|key|] == '"';
    SplitsAtQuote(key, content + "\"" + more);
    SplitsAtQuote(content, more);
  }

  lemma ItemText(host: string, why: string, when: string, last: string)
    requires last == ItemTail(when) + "}"
    ensures Item(host, why, when) == "{ host = " + ("\"" + host + "\"" + (", why = " + ("\"" + why + "\"" + last)))
    ensures last == if when == "" then " }" else ", when = " + ("\"" + when + "\"" + " }")
  {
  }

  /** The entry's strings read back: the host, then the reason, then the scope if there is one. */
  lemma ItemReadsBack(host: string, why: string, when: string)
    requires IsClean(host) && IsClean(why) && IsClean(when)
    ensures QuotedStrings(Item(host, why, when)) == [host, why] + (if when == "" then [] else [when])
  {
    hide Item, QuotedStrings, ItemTail;
    var last := ItemTail(when) + "}";
    ItemText(host, why, when, last);
    OneString("{ host = ", host, ", why = " + ("\"" + why + "\"" + last));
    OneString(", why = ", why, last);
    if when != "" {
      OneString(", when = ", when, " }");
    }
    NoStrings(" }");
  }

  lemma NoStrings(text: string)
    requires '"' !in text
    ensures QuotedStrings(text) == []
  {
  }
}
