/** The lexer of lang/build-tree.c: source lines and their indentation become START, SEP and END tokens. */
module BuildTree {

  datatype Bracket = Round | Square | Curly

  /** A token of the scanner. Blank is a run of spaces and tabs; every token without a part here is a Word. */
  datatype Token = Blank(width: nat) | Newline | Semi | Etc | Open(kind: Bracket) | Close(kind: Bracket) | Word(text: string)

  datatype Out = START | SEP | END | Tok(token: Token)

  // ----- lex_read_line -----

  /** The open brackets of each kind, less the closed ones. */
  datatype Counters = Counters(p: int, s: int, b: int) {
    predicate Inside() {
      p > 0 || s > 0 || b > 0
    }

    function Count(t: Token): Counters {
      match t
      case Open(Round) => this.(p := p + 1)
      case Close(Round) => this.(p := p - 1)
      case Open(Square) => this.(s := s + 1)
      case Close(Square) => this.(s := s - 1)
      case Open(Curly) => this.(b := b + 1)
      case Close(Curly) => this.(b := b - 1)
      case _ => this
    }
  }

  const ZERO := Counters(0, 0, 0)

  datatype Read = Line(raw: seq<Token>, rest: seq<Token>) | AtEnd | BadEllipsis

  /** What stands after an ellipsis: the rest from the next line on, if only blanks come before it. */
  function SkipEllipsis(ts: seq<Token>): (r: seq<Token>)
    ensures |r| <= |ts|
    ensures ts != [] && r == ts ==> !ts[0].Newline? && !ts[0].Blank?
  {
    if ts == [] then []
    else if ts[0].Newline? then ts[1..]
    else if ts[0].Blank? then SkipEllipsis(ts[1..])
    else ts
  }

  predicate EllipsisFits(ts: seq<Token>) {
    ts != [] && (ts[0].Newline? || (ts[0].Blank? && EllipsisFits(ts[1..])))
  }

  lemma {:induction false} EllipsisShrinks(ts: seq<Token>)
    requires EllipsisFits(ts)
    ensures |SkipEllipsis(ts)| < |ts|
  {
    if !ts[0].Newline? {
      EllipsisShrinks(ts[1..]);
    }
  }

  /** One source line, with the lines that brackets and ellipses join to it. */
  function ReadLine(ts: seq<Token>, open: Counters, raw: seq<Token>): (r: Read)
    ensures r.Line? ==> |r.rest| <= |ts| && (|r.rest| < |ts| || raw != [])
    decreases |ts|
  {
    if ts == [] then if raw == [] then AtEnd else Line(raw, [])
    else
      match ts[0]
      case Newline => if open.Inside() then ReadLine(ts[1..], open, raw) else Line(raw, ts[1..])
      case Etc =>
        if EllipsisFits(ts[1..]) then
          EllipsisShrinks(ts[1..]);
          ReadLine(SkipEllipsis(ts[1..]), open, raw)
        else BadEllipsis
      case t => ReadLine(ts[1..], open.Count(t), raw + [t])
  }

  // ----- the indentation algorithm -----

  function Top(indents: seq<nat>): int {
    if indents == [] then -1 else indents[|indents| - 1]
  }

  ghost predicate Increasing(s: seq<nat>) {
    forall i, j :: 0 <= i < j < |s| ==> s[i] < s[j]
  }

  /** How the stream of tokens ends: at the end of the input, with one of the two errors, or with a read outside
      `indents` or `line`. */
  datatype Ending = Complete | BadIndentation | EllipsisError | OutOfBounds

  datatype Opened = Opened(out: seq<Out>, indents: seq<nat>) | Failed(why: Ending)

  function Behind(first: seq<Out>, r: Opened): Opened {
    if r.Opened? then Opened(first + r.out, r.indents) else r
  }

  lemma BehindBehind(a: seq<Out>, b: seq<Out>, r: Opened)
    ensures Behind(a, Behind(b, r)) == Behind(a + b, r)
    ensures Behind([], r) == r
  {
    if r.Opened? {
      assert a + (b + r.out) == (a + b) + r.out;
    }
  }

  /** Pops the levels deeper than `indentation`; the level itself must be open. */
  function Dedent(indents: seq<nat>, indentation: nat): Opened {
    if indents == [] then Failed(OutOfBounds)
    else
      var top, below := indents[|indents| - 1], indents[..|indents| - 1];
      if top < indentation then Failed(BadIndentation)
      else if top == indentation then Opened([SEP], indents)
      else Behind([END], Dedent(below, indentation))
  }

  /** The tokens that come before a line at `indentation`, and the levels open after them. */
  function Indent(indents: seq<nat>, indentation: nat): Opened {
    if indentation == Top(indents) then Opened([SEP], indents)
    else if indentation > Top(indents) then Opened([START], indents + [indentation])
    else Dedent(indents, indentation)
  }

  function Indentation(raw: seq<Token>): nat {
    if raw != [] && raw[0].Blank? then raw[0].width else 0
  }

  predicate IsBlank(raw: seq<Token>) {
    raw == [] || (|raw| == 1 && raw[0].Blank?)
  }

  /** The line's own tokens: blanks dropped, ';' turned into SEP. */
  function Contents(raw: seq<Token>): seq<Out> {
    if raw == [] then []
    else (if raw[0].Blank? then [] else if raw[0].Semi? then [SEP] else [Tok(raw[0])]) + Contents(raw[1..])
  }

  function StripSeps(s: seq<Out>): (r: seq<Out>)
    ensures r <= s
    ensures r == [] || r[|r| - 1] != SEP
  {
    if s != [] && s[|s| - 1] == SEP then StripSeps(s[..|s| - 1]) else s
  }

  datatype Stream = Stream(out: seq<Out>, ending: Ending) {
    function After(first: seq<Out>): Stream {
      Stream(first + out, ending)
    }
  }

  function Ends(n: nat): seq<Out> {
    if n == 0 then [] else [END] + Ends(n - 1)
  }

  /** All that the lexer still delivers, with the tokens `ts` unread and these levels open. */
  function Layout(ts: seq<Token>, indents: seq<nat>): Stream
    decreases |ts|
  {
    match ReadLine(ts, ZERO, [])
    case AtEnd => Stream(Ends(|indents|), Complete)
    case BadEllipsis => Stream([], EllipsisError)
    case Line(raw, rest) =>
      if IsBlank(raw) then Layout(rest, indents)
      else
        match Indent(indents, Indentation(raw))
        case Failed(why) => Stream([], why)
        case Opened(out, levels) =>
          var line := StripSeps(out + Contents(raw));
          if line == [] then Stream([], OutOfBounds) else Layout(rest, levels).After(line)
  }

  // ----- the lexer itself -----

  /** What one call of rc_lex does: deliver a token, return 0, or stop. */
  datatype Lexed = Delivered(out: Out) | EndOfInput | Stopped(why: Ending)

  datatype Fetched = Ready | Already(lexed: Lexed)

  class Lexer {
    const tokens: seq<Token>
    var pos: nat
    var rawLine: seq<Token>
    var line: seq<Out>
    var indents: seq<nat>
    var nextToken: nat
    var prevIndentation: int

    ghost predicate Valid()
      reads this
    {
      && pos <= |tokens| && nextToken <= |line|
      && Increasing(indents)
      && (prevIndentation == Top(indents) || pos == |tokens|)
    }

    /** What this lexer still delivers. */
    ghost function Rest(): Stream
      requires Valid()
      reads this
    {
      Layout(tokens[pos..], indents).After(line[nextToken..])
    }

    constructor (tokens: seq<Token>)
      ensures Valid() && Rest() == Layout(tokens, [])
    {
      this.tokens := tokens;
      pos, rawLine, line, indents, nextToken, prevIndentation := 0, [], [], [], 0, -1;
      new;
      assert tokens[0..] == tokens;
    }

    /** lex_read_line: fills rawLine; true at the end of the input, or None for a bad ellipsis. */
    method LexReadLine() returns (r: Read)
      requires pos <= |tokens|
      modifies `pos, `rawLine
      ensures old(pos) <= pos <= |tokens|
      ensures r == ReadLine(tokens[old(pos)..], ZERO, [])
      ensures r.Line? ==> r.raw == rawLine && r.rest == tokens[pos..]
      ensures r.AtEnd? ==> pos == |tokens|
    {
      rawLine := [];
      var open := ZERO;
      while true
        invariant old(pos) <= pos <= |tokens|
        invariant ReadLine(tokens[old(pos)..], ZERO, []) == ReadLine(tokens[pos..], open, rawLine)
        decreases |tokens| - pos
      {
        if pos == |tokens| {
          return if rawLine == [] then AtEnd else Line(rawLine, []);
        }
        var n := tokens[pos];
        pos := pos + 1;
        assert tokens[pos - 1..][1..] == tokens[pos..];
        match n {
          case Newline =>
            if !open.Inside() {
              return Line(rawLine, tokens[pos..]);
            }
          case Etc =>
            var ok := PassEllipsis();
            if !ok {
              return BadEllipsis;
            }
          case _ =>
            open := open.Count(n);
            rawLine := rawLine + [n];
        }
      }
    }

    /** The inner loop after an ellipsis. */
    method PassEllipsis() returns (ok: bool)
      requires pos <= |tokens|
      modifies `pos
      ensures old(pos) <= pos <= |tokens|
      ensures ok == EllipsisFits(tokens[old(pos)..])
      ensures ok ==> pos > old(pos) && tokens[pos..] == SkipEllipsis(tokens[old(pos)..])
    {
      while pos < |tokens|
        invariant old(pos) <= pos <= |tokens|
        invariant EllipsisFits(tokens[old(pos)..]) == EllipsisFits(tokens[pos..])
        invariant SkipEllipsis(tokens[old(pos)..]) == SkipEllipsis(tokens[pos..])
      {
        var n := tokens[pos];
        assert tokens[pos..][1..] == tokens[pos + 1..];
        pos := pos + 1;
        if n.Newline? {
          return true;
        }
        if !n.Blank? {
          return false;
        }
      }
      return false;
    }

    /** The dedenting loop: Complete, or the error it stops with. */
    method PopLevels(indentation: nat) returns (why: Ending)
      modifies `indents, `line
      ensures var d := Dedent(old(indents), indentation);
        if d.Opened? then why == Complete && indents == d.indents && line == old(line) + d.out
        else why == d.why != Complete
    {
      ghost var done := [];
      BehindBehind([], [], Dedent(indents, indentation));
      while true
        invariant line == old(line) + done
        invariant Dedent(old(indents), indentation) == Behind(done, Dedent(indents, indentation))
        decreases |indents|
      {
        if indents == [] {
          return OutOfBounds;
        }
        var top := indents[|indents| - 1];
        indents := indents[..|indents| - 1];
        if top > indentation {
          BehindBehind(done, [END], Dedent(indents, indentation));
          line := line + [END];
          done := done + [END];
        }
        if top == indentation {
          // Put it back.
          indents := indents + [indentation];
          line := line + [SEP];
          return Complete;
        }
        if top < indentation {
          return BadIndentation;
        }
      }
    }

    /** Compares the indentation with the previous line's. */
    method StartLine(indentation: nat) returns (why: Ending)
      requires prevIndentation == Top(indents) && Increasing(indents)
      modifies `indents, `line, `prevIndentation
      ensures var o := Indent(old(indents), indentation);
        if o.Opened? then
          && why == Complete && indents == o.indents && line == old(line) + o.out
          && prevIndentation == indentation == Top(indents) && Increasing(indents)
        else why == o.why != Complete
    {
      DedentKeeps(indents, indentation);
      if indentation == prevIndentation {
        line := line + [SEP];
      } else if indentation > prevIndentation {
        line := line + [START];
        indents := indents + [indentation];
      } else {
        why := PopLevels(indentation);
        if why != Complete {
          return;
        }
      }
      why := Complete;
      prevIndentation := indentation;
    }

    /** Dumps rawLine into line, without blanks and with SEP for ';', and removes any SEP at the end. */
    method DumpLine()
      modifies `line
      ensures line == StripSeps(old(line) + Contents(rawLine))
    {
      var i := 0;
      assert rawLine[0..] == rawLine;
      while i < |rawLine|
        invariant 0 <= i <= |rawLine|
        invariant old(line) + Contents(rawLine) == line + Contents(rawLine[i..])
      {
        assert rawLine[i..][1..] == rawLine[i + 1..];
        match rawLine[i] {
          case Blank(_) =>
          case Semi => line := line + [SEP];
          case t => line := line + [Tok(t)];
        }
        i := i + 1;
      }
      assert rawLine[i..] == [] && line + Contents([]) == line;
      while line != [] && line[|line| - 1] == SEP
        invariant StripSeps(line) == StripSeps(old(line) + Contents(rawLine))
        decreases |line|
      {
        line := line[..|line| - 1];
      }
    }

    /** Turns rawLine into line. */
    method UseLine() returns (why: Ending)
      requires prevIndentation == Top(indents) && Increasing(indents) && line == []
      modifies `indents, `line, `prevIndentation
      ensures var o := Indent(old(indents), Indentation(rawLine));
        if o.Opened? then
          && why == Complete && indents == o.indents && line == StripSeps(o.out + Contents(rawLine))
          && prevIndentation == Top(indents) && Increasing(indents)
        else why == o.why != Complete
    {
      hide Indent, StripSeps, Contents;
      ghost var o := Indent(indents, Indentation(rawLine));
      why := StartLine(Indentation(rawLine));
      if why == Complete {
        assert [] + o.out == o.out;
        DumpLine();
      }
    }

    /** What is still to come once `line` has been used up. */
    ghost function Unread(): Stream
      requires pos <= |tokens|
      reads this
    {
      Layout(tokens[pos..], indents)
    }

    /** Reads on to the next line that holds tokens, into `line`; or says at once what rc_lex does. */
    method FetchLine() returns (r: Fetched)
      requires Valid() && line == [] && nextToken == 0
      modifies this
      ensures nextToken == 0 && pos <= |tokens|
      ensures match r
        case Ready => Valid() && old(Unread()) == if line == [] then Stream([], OutOfBounds) else Unread().After(line)
        case Already(Delivered(out)) => Valid() && line == [] && out == END && old(Unread()) == Unread().After([END])
        case Already(EndOfInput) => Valid() && line == [] && old(Unread()) == Unread() == Stream([], Complete)
        case Already(Stopped(why)) => why != Complete && old(Unread()) == Stream([], why)
    {
      hide Layout, StripSeps, Contents, Indent, Dedent, ReadLine, Indentation;
      while true
        invariant Valid() && line == [] && nextToken == 0
        invariant old(Unread()) == Unread()
        decreases |tokens| - pos
      {
        LayoutLine(tokens[pos..], indents);
        NothingLeft(indents);
        var read := LexReadLine();
        if read.AtEnd? {
          if |indents| > 0 {
            indents := indents[..|indents| - 1];
            return Already(Delivered(END));
          }
          return Already(EndOfInput);
        }
        if read.BadEllipsis? {
          return Already(Stopped(EllipsisError));
        }
        // Skip empty lines and lines that have only whitespace.
        if |rawLine| == 0 || (|rawLine| == 1 && rawLine[0].Blank?) {
          continue;
        }
        var why := UseLine();
        if why != Complete {
          return Already(Stopped(why));
        }
        return Ready;
      }
    }

    /** rc_lex, once its first call has told the parser what to parse. */
    method RcLex() returns (r: Lexed)
      requires Valid()
      modifies this
      ensures match r
        case Delivered(out) => Valid() && old(Rest()) == Rest().After([out])
        case EndOfInput => Valid() && old(Rest()) == Rest() == Stream([], Complete)
        case Stopped(why) => why != Complete && old(Rest()) == Stream([], why)
    {
      hide Layout, Increasing, Top;
      ghost var was := Unread();
      if nextToken == |line| {
        AfterNothing(was);
        assert line[nextToken..] == [] && Rest() == was;
        line := [];
        nextToken := 0;
        var fetched := FetchLine();
        assert line[0..] == line;
        if fetched.Already? {
          AfterNothing(Unread());
          return fetched.lexed;
        }
        if line == [] {
          return Stopped(OutOfBounds);
        }
      }
      AfterFirst(Unread(), line[nextToken..]);
      r := Delivered(line[nextToken]);
      nextToken := nextToken + 1;
    }
  }

  lemma {:induction false} DedentKeeps(indents: seq<nat>, indentation: nat)
    requires Increasing(indents)
    ensures var d := Dedent(indents, indentation);
      d.Opened? ==> d.indents <= indents && d.indents != [] && Top(d.indents) == indentation && Increasing(d.indents)
  {
    if indents != [] {
      DedentKeeps(indents[..|indents| - 1], indentation);
    }
  }

  lemma AfterNothing(st: Stream)
    ensures st.After([]) == st
  {
  }

  lemma AfterFirst(st: Stream, line: seq<Out>)
    requires line != []
    ensures st.After(line) == st.After(line[1..]).After([line[0]])
  {
    assert line + st.out == [line[0]] + (line[1..] + st.out);
  }

  lemma NothingLeft(indents: seq<nat>)
    ensures Layout([], indents) == Stream(Ends(|indents|), Complete)
    ensures indents != [] ==> Layout([], indents) == Layout([], indents[..|indents| - 1]).After([END])
  {
  }

  /** One round of Layout. */
  lemma LayoutLine(ts: seq<Token>, indents: seq<nat>)
    ensures var read := ReadLine(ts, ZERO, []);
      if read.AtEnd? then Layout(ts, indents) == Stream(Ends(|indents|), Complete)
      else if read.BadEllipsis? then Layout(ts, indents) == Stream([], EllipsisError)
      else if IsBlank(read.raw) then Layout(ts, indents) == Layout(read.rest, indents)
      else
        var o := Indent(indents, Indentation(read.raw));
        if o.Failed? then Layout(ts, indents) == Stream([], o.why)
        else
          var line := StripSeps(o.out + Contents(read.raw));
          Layout(ts, indents) == if line == [] then Stream([], OutOfBounds) else Layout(read.rest, o.indents).After(line)
  {
  }
}
