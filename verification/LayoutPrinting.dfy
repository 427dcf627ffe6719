/** The layout theorems, on the tokens of a source file. */
module LayoutPrinting {
  import opened BuildTree
  import opened LayoutTrees

  // ----- what is accepted -----

  ghost predicate IsTree(f: Forest<seq<Out>>, d: nat, lines: seq<Src>) {
    f.Cons? && Nested(f, d) && ForestSays(f) && Lines(f, d) == lines
  }

  /** Lines that say something are accepted just when they are the lines of a tree, and the stream is that tree. */
  lemma AcceptedAreTrees(lines: seq<Src>)
    requires lines != [] && AllSay(lines)
    ensures Run(lines, []).ending == Complete <==> exists f, d :: IsTree(f, d, lines)
    ensures forall f, d :: IsTree(f, d, lines) ==> Run(lines, []) == Stream(Flat(f), Complete)
  {
    forall f, d | IsTree(f, d, lines)
      ensures Run(lines, []) == Stream(Flat(f), Complete)
    {
      RunForest(f, d, [], []);
      assert Lines(f, d) + [] == lines;
      assert Run([], []) == Stream([], Complete);
      assert Flat(f) + [] == Flat(f);
    }
    if Run(lines, []).ending == Complete {
      var f, d := TreeOf(lines);
    }
  }

  lemma TreeOf(lines: seq<Src>) returns (f: Forest<seq<Out>>, d: nat)
    requires lines != [] && AllSay(lines) && Run(lines, []).ending == Complete
    ensures IsTree(f, d, lines)
  {
    d := lines[0].indent;
    var first, more := lines[0], lines[1..];
    assert lines == [first] + more;
    assert Indent([], d) == Opened([START], [d]) && Indent([d], d) == Opened([SEP], [d]);
    hide Run, Lines, Indent, Dedent, Says, Nested, ForestSays;
    EndingAfter(first, more, []);
    EndingAfter(first, more, [d]);
    var left;
    f, left := BuildBlock(lines, d, [d]);
    NothingBelow(left, d);
    hide *;
    NothingLeftOver(Lines(f, d), left);
    assert IsTree(f, d, lines) by { Whole(f, d, lines); }
  }

  lemma Whole(f: Forest<seq<Out>>, d: nat, lines: seq<Src>)
    requires f.Cons? && Nested(f, d) && ForestSays(f) && Lines(f, d) == lines
    ensures IsTree(f, d, lines)
  {
  }

  lemma NothingLeftOver(a: seq<Src>, b: seq<Src>)
    requires b == []
    ensures a + b == a
  {
  }

  /** No accepted line goes below the first. */
  lemma NothingBelow(lines: seq<Src>, d: nat)
    requires AllSay(lines) && Run(lines, [d]).ending == Complete && (lines != [] ==> lines[0].indent < d)
    ensures lines == []
  {
    if lines != [] {
      assert lines == [lines[0]] + lines[1..];
      EndingAfter(lines[0], lines[1..], [d]);
      DedentCases([d], lines[0].indent);
    }
  }

  // ----- one dedent -----

  lemma {:induction false} DedentCases(s: seq<nat>, i: nat)
    requires s != [] && Increasing(s)
    ensures i in s ==> Dedent(s, i).Opened?
    ensures s[0] <= i && i !in s ==> Dedent(s, i) == Failed(BadIndentation)
    ensures i < s[0] ==> Dedent(s, i) == Failed(OutOfBounds)
  {
    var top, below := s[|s| - 1], s[..|s| - 1];
    assert s == below + [top] && s[0] <= top;
    if top < i {
      assert i !in s;
    } else if top > i {
      assert Dedent(s, i) == Behind([END], Dedent(below, i));
      assert i in s <==> i in below;
      if below != [] {
        DedentCases(below, i);
      }
    }
  }

  /** A dedent is accepted exactly when it goes back to an open level, is an error exactly when it stops between two,
      and reads outside `indents` exactly when it goes below the first line. */
  lemma DedentExactly(s: seq<nat>, i: nat)
    requires s != [] && Increasing(s) && i < Top(s)
    ensures Indent(s, i).Opened? <==> i in s
    ensures Indent(s, i) == Failed(BadIndentation) <==> i >= s[0] && i !in s
    ensures Indent(s, i) == Failed(OutOfBounds) <==> i < s[0]
  {
    DedentCases(s, i);
    assert Indent(s, i) == Dedent(s, i);
    assert i in s ==> s[0] <= i;
    hide *;
  }

  // ----- START and END -----

  /** From depth `n` the tokens lead to depth `m`, never below 0. */
  predicate Balance(out: seq<Out>, n: int, m: int) {
    n >= 0 && if out == [] then n == m else Balance(out[1..], n + Turn(out[0]), m)
  }

  function Turn(t: Out): int {
    match t case START => 1 case END => -1 case _ => 0
  }

  lemma {:induction false} BalanceAppend(a: seq<Out>, b: seq<Out>, n: int, k: int, m: int)
    requires Balance(a, n, k) && Balance(b, k, m)
    ensures Balance(a + b, n, m)
  {
    if a == [] {
      assert a + b == b;
    } else {
      assert (a + b)[1..] == a[1..] + b;
      BalanceAppend(a[1..], b, n + Turn(a[0]), k, m);
    }
  }

  lemma {:induction false} FlatBalance(out: seq<Out>, n: nat)
    requires forall i :: 0 <= i < |out| ==> Turn(out[i]) == 0
    ensures Balance(out, n, n)
  {
    if out != [] {
      FlatBalance(out[1..], n);
    }
  }

  lemma {:induction false} ContentsFlat(raw: seq<Token>)
    ensures forall i :: 0 <= i < |Contents(raw)| ==> Turn(Contents(raw)[i]) == 0
  {
    if raw != [] {
      ContentsFlat(raw[1..]);
    }
  }

  lemma {:induction false} StripBalance(s: seq<Out>, n: int, m: int)
    requires Balance(s, n, m)
    ensures Balance(StripSeps(s), n, m)
    decreases |s|
  {
    if s != [] && s[|s| - 1] == SEP {
      DropLast(s, n, m);
      StripBalance(s[..|s| - 1], n, m);
    }
  }

  lemma {:induction false} DropLast(s: seq<Out>, n: int, m: int)
    requires s != [] && Turn(s[|s| - 1]) == 0 && Balance(s, n, m)
    ensures Balance(s[..|s| - 1], n, m)
  {
    if |s| > 1 {
      DropLast(s[1..], n + Turn(s[0]), m);
      assert s[1..][..|s| - 2] == s[..|s| - 1][1..];
    }
  }

  lemma {:induction false} DedentBalance(s: seq<nat>, i: nat)
    ensures var o := Dedent(s, i); o.Opened? ==> Balance(o.out, |s|, |o.indents|)
  {
    if s != [] && s[|s| - 1] > i {
      var below := s[..|s| - 1];
      DedentBalance(below, i);
      var o := Dedent(below, i);
      if o.Opened? {
        assert ([END] + o.out)[1..] == o.out;
      }
    } else if s != [] {
      assert [SEP][1..] == [];
    }
  }

  lemma IndentBalance(s: seq<nat>, i: nat)
    ensures var o := Indent(s, i); o.Opened? ==> Balance(o.out, |s|, |o.indents|)
  {
    DedentBalance(s, i);
    assert [SEP][1..] == [] && [START][1..] == [];
  }

  lemma {:induction false} EndsBalance(n: nat)
    ensures Balance(Ends(n), n, 0)
  {
    if n > 0 {
      EndsBalance(n - 1);
      assert ([END] + Ends(n - 1))[1..] == Ends(n - 1);
    }
  }

  /** Whatever the input, no END comes without its START, and a stream that is delivered to the end closes every block. */
  lemma {:induction false} LayoutBalances(ts: seq<Token>, indents: seq<nat>) returns (m: nat)
    ensures Balance(Layout(ts, indents).out, |indents|, m)
    ensures Layout(ts, indents).ending == Complete ==> m == 0
    decreases |ts|
  {
    LayoutLine(ts, indents);
    EndsBalance(|indents|);
    var read := ReadLine(ts, ZERO, []);
    m := if read.AtEnd? then 0 else |indents|;
    if read.Line? {
      var raw := read.raw;
      if IsBlank(raw) {
        m := LayoutBalances(read.rest, indents);
      } else {
        var o := Indent(indents, Indentation(raw));
        NeverFailsComplete(indents, Indentation(raw));
        if o.Opened? && StripSeps(o.out + Contents(raw)) != [] {
          LineBalance(indents, raw);
          m := LayoutBalances(read.rest, o.indents);
          hide *;
          BalanceAppend(StripSeps(o.out + Contents(raw)), Layout(read.rest, o.indents).out, |indents|, |o.indents|, m);
        }
      }
    }
  }

  lemma LineBalance(indents: seq<nat>, raw: seq<Token>)
    requires Indent(indents, Indentation(raw)).Opened?
    ensures var o := Indent(indents, Indentation(raw)); Balance(StripSeps(o.out + Contents(raw)), |indents|, |o.indents|)
  {
    var o := Indent(indents, Indentation(raw));
    IndentBalance(indents, Indentation(raw));
    ContentsFlat(raw);
    FlatBalance(Contents(raw), |o.indents|);
    BalanceAppend(o.out, Contents(raw), |indents|, |o.indents|, |o.indents|);
    StripBalance(o.out + Contents(raw), |indents|, |o.indents|);
  }

  // ----- from tokens to lines -----

  /** The lines of a source, blank ones left out. */
  function SourceLines(ts: seq<Token>): seq<Src>
    decreases |ts|
  {
    match ReadLine(ts, ZERO, [])
    case Line(raw, rest) =>
      if IsBlank(raw) then SourceLines(rest) else [Src(Indentation(raw), Contents(raw))] + SourceLines(rest)
    case _ => []
  }

  /** Nothing but blanks comes between an ellipsis and the end of its line. */
  predicate EllipsesFit(ts: seq<Token>)
    decreases |ts|
  {
    match ReadLine(ts, ZERO, [])
    case Line(_, rest) => EllipsesFit(rest)
    case r => r.AtEnd?
  }

  lemma {:induction false} LayoutIsRun(ts: seq<Token>, indents: seq<nat>)
    requires EllipsesFit(ts)
    ensures Layout(ts, indents) == Run(SourceLines(ts), indents)
    decreases |ts|
  {
    LayoutLine(ts, indents);
    var read := ReadLine(ts, ZERO, []);
    if read.Line? {
      if IsBlank(read.raw) {
        LayoutIsRun(read.rest, indents);
      } else {
        var o := Indent(indents, Indentation(read.raw));
        if o.Opened? {
          LayoutIsRun(read.rest, o.indents);
        }
      }
    }
  }

  /** A source whose lines all say something is accepted just when its lines are the lines of a block tree; and then
      the parser is given that tree. */
  lemma LayoutAcceptsTrees(ts: seq<Token>)
    requires EllipsesFit(ts) && SourceLines(ts) != [] && AllSay(SourceLines(ts))
    ensures Layout(ts, []).ending == Complete <==> exists f, d :: IsTree(f, d, SourceLines(ts))
    ensures forall f, d :: IsTree(f, d, SourceLines(ts)) ==> Layout(ts, []) == Stream(Flat(f), Complete)
  {
    LayoutIsRun(ts, []);
    AcceptedAreTrees(SourceLines(ts));
  }

  /** A line that says nothing is read past its end just when it stands at the level of the line before it. */
  lemma {:induction false} SilentLine(indents: seq<nat>, raw: seq<Token>)
    requires Indent(indents, Indentation(raw)).Opened?
    ensures var o := Indent(indents, Indentation(raw));
      StripSeps(o.out + Contents(raw)) == [] <==> Indentation(raw) == Top(indents) && !Says(Contents(raw))
  {
    var i := Indentation(raw);
    var o, out := Indent(indents, i), Contents(raw);
    if Says(out) {
      StripKeepsFront(o.out, out);
    } else {
      StripSilent(o.out, out);
      if i < Top(indents) {
        assert Dedent(indents, i) == Behind([END], Dedent(indents[..|indents| - 1], i));
        StripKeepsEnd(o.out);
      }
    }
  }

  lemma ReadNext(t: Token, ts: seq<Token>, raw: seq<Token>)
    requires t.Blank? || t.Semi? || t.Word?
    ensures ReadLine([t] + ts, ZERO, raw) == ReadLine(ts, ZERO, raw + [t])
    ensures ReadLine([Newline] + ts, ZERO, raw) == Line(raw, ts)
  {
    assert ([t] + ts)[1..] == ts && ([Newline] + ts)[1..] == ts;
  }

  /** One line more of the layout. */
  lemma EndingByLine(ts: seq<Token>, indents: seq<nat>, raw: seq<Token>, rest: seq<Token>)
    requires ReadLine(ts, ZERO, []) == Line(raw, rest) && !IsBlank(raw)
    ensures var o := Indent(indents, Indentation(raw));
      Layout(ts, indents).ending
        == if o.Failed? then o.why
           else if StripSeps(o.out + Contents(raw)) == [] then OutOfBounds
           else Layout(rest, o.indents).ending
  {
    hide ReadLine, Indent, Contents, StripSeps;
  }

  lemma WordLine(a: Token)
    requires a.Word?
    ensures !IsBlank([a]) && Indentation([a]) == 0 && Contents([a]) == [Tok(a)]
    ensures !IsBlank([Blank(1), a]) && Indentation([Blank(1), a]) == 1 && Contents([Blank(1), a]) == [Tok(a)]
    ensures StripSeps([START, Tok(a)]) == [START, Tok(a)]
  {
    assert [a][1..] == [] && [Blank(1), a][1..] == [a];
  }

  lemma SemiLine(semi: Token)
    requires semi == Semi
    ensures !IsBlank([semi]) && Indentation([semi]) == 0 && Contents([semi]) == [SEP] && StripSeps([SEP, SEP]) == []
  {
    assert [semi][1..] == [];
    assert [SEP, SEP][..1] == [SEP] && [SEP][..0] == [];
  }

  lemma FirstLevel(i: nat)
    ensures Indent([], i) == Opened([START], [i]) && Indent([i], i) == Opened([SEP], [i])
    ensures i > 0 ==> Indent([i], 0) == Failed(OutOfBounds)
  {
    assert [] + [i] == [i] && [i][..0] == [];
    assert Dedent([], 0) == Failed(OutOfBounds);
  }

  lemma ReadLast(t: Token)
    requires t.Semi? || t.Word?
    ensures ReadLine([t], ZERO, []) == Line([t], [])
  {
    ReadNext(t, [], []);
    assert [t] + [] == [t] && [] + [t] == [t];
  }

  /** An input for a read below `indents`: a second line indented less than the first. */
  lemma BelowFirstReadsOutside(a: Token, b: Token)
    requires a.Word? && b.Word?
    ensures Layout([Blank(1), a, Newline, b], []).ending == OutOfBounds
  {
    hide *;
    var ts, first := [Blank(1), a, Newline, b], [Blank(1), a];
    ReadNext(Blank(1), [a, Newline, b], []);
    ReadNext(a, [Newline, b], [Blank(1)]);
    ReadNext(a, [b], first);
    ReadLast(b);
    assert ts == [Blank(1)] + [a, Newline, b] && [a] + [Newline, b] == [a, Newline, b];
    assert [Newline] + [b] == [Newline, b] && [] + [Blank(1)] == [Blank(1)] && [Blank(1)] + [a] == first;
    WordLine(a);
    WordLine(b);
    FirstLevel(1);
    assert [START] + [Tok(a)] == [START, Tok(a)];
    EndingByLine(ts, [], first, [b]);
    EndingByLine([b], [1], [b], []);
  }

  /** An input for a read past a line's end: a line of nothing but `;` after a word. */
  lemma SilentReadsOutside(a: Token, semi: Token)
    requires a.Word? && semi == Semi
    ensures Layout([a, Newline, semi], []).ending == OutOfBounds
  {
    hide *;
    var ts := [a, Newline, semi];
    ReadNext(a, [Newline, semi], []);
    ReadNext(a, [semi], [a]);
    ReadLast(semi);
    assert ts == [a] + [Newline, semi] && [Newline] + [semi] == [Newline, semi] && [] + [a] == [a];
    WordLine(a);
    SemiLine(semi);
    FirstLevel(0);
    assert [START] + [Tok(a)] == [START, Tok(a)] && [SEP] + [SEP] == [SEP, SEP];
    EndingByLine(ts, [], [a], [semi]);
    EndingByLine([semi], [0], [semi], []);
  }

  /** Empty lines and lines of blanks only are as good as not there. */
  lemma BlankLinesVanish(n: nat, ts: seq<Token>, indents: seq<nat>)
    ensures Layout([Newline] + ts, indents) == Layout(ts, indents)
    ensures Layout([Blank(n)] + ([Newline] + ts), indents) == Layout(ts, indents)
  {
    ReadNext(Blank(n), [Newline] + ts, []);
    ReadNext(Blank(n), ts, [Blank(n)]);
    ReadNext(Blank(n), ts, []);
    assert [] + [Blank(n)] == [Blank(n)];
    hide ReadLine;
  }

  lemma {:induction false} StripKeepsEnd(s: seq<Out>)
    requires s != [] && s[0] != SEP
    ensures StripSeps(s) != []
    decreases |s|
  {
    if s[|s| - 1] == SEP {
      StripKeepsEnd(s[..|s| - 1]);
    }
  }

  lemma {:induction false} StripSilent(front: seq<Out>, out: seq<Out>)
    requires !Says(out)
    ensures StripSeps(front + out) == StripSeps(front)
  {
    if out == [] {
      assert front + out == front;
    } else {
      assert (front + out)[..|front + out| - 1] == front + out[..|out| - 1];
      StripSilent(front, out[..|out| - 1]);
    }
  }

  /** What a line passes on, token by token: blanks vanish, a ';' becomes SEP, and nothing else changes. */
  lemma {:induction false} ContentsExactly(a: seq<Token>, t: Token, b: seq<Token>)
    ensures Contents(a + ([t] + b))
      == Contents(a) + ((if t.Blank? then [] else if t.Semi? then [SEP] else [Tok(t)]) + Contents(b))
    ensures Contents([]) == []
    decreases |a|
  {
    var all := a + ([t] + b);
    if a == [] {
      assert all == [t] + b && all[0] == t && all[1..] == b;
      var rest := (if t.Blank? then [] else if t.Semi? then [SEP] else [Tok(t)]) + Contents(b);
      assert [] + rest == rest;
    } else {
      assert all[0] == a[0] && all[1..] == a[1..] + ([t] + b);
      ContentsExactly(a[1..], t, b);
      var rest := (if t.Blank? then [] else if t.Semi? then [SEP] else [Tok(t)]) + Contents(b);
      var x := if a[0].Blank? then [] else if a[0].Semi? then [SEP] else [Tok(a[0])];
      assert Contents(a) == x + Contents(a[1..]) && Contents(all) == x + (Contents(a[1..]) + rest);
      hide *;
      assert x + (Contents(a[1..]) + rest) == (x + Contents(a[1..])) + rest;
    }
  }

  /** At the end of a line every SEP goes, and nothing but SEPs. */
  lemma {:induction false} StripExactly(s: seq<Out>)
    ensures var r := StripSeps(s);
      && r <= s && (forall i :: |r| <= i < |s| ==> s[i] == SEP)
      && (r != [] ==> r[|r| - 1] != SEP)
    decreases |s|
  {
    if s != [] && s[|s| - 1] == SEP {
      StripExactly(s[..|s| - 1]);
    }
  }

  // ----- the printer -----

  /** The brackets of a kind that are opened, less those that are closed. */
  function Net(text: seq<Token>, kind: Bracket): int {
    var count := multiset(text);
    (count[Open(kind)] as int) - (count[Close(kind)] as int)
  }

  /** After the text, a bracket of some kind is still open. */
  predicate InBrackets(text: seq<Token>) {
    Net(text, Round) > 0 || Net(text, Square) > 0 || Net(text, Curly) > 0
  }

  /** One line of source, which may run over several lines inside brackets. */
  predicate OneLine(text: seq<Token>) {
    && !InBrackets(text)
    && forall i :: 0 <= i < |text| ==> !text[i].Etc? && (text[i].Newline? ==> InBrackets(text[..i]))
  }

  /** The line without the line ends inside its brackets. */
  function Joined(text: seq<Token>): seq<Token> {
    if text == [] then [] else (if text[0].Newline? then [] else [text[0]]) + Joined(text[1..])
  }

  /** Lines start with a token, not a blank, and hold a token other than ';'. */
  predicate Printable(f: Forest<seq<Token>>) {
    f.Cons? ==>
      && f.text != [] && !f.text[0].Blank? && OneLine(f.text) && Says(Contents(Joined(f.text)))
      && Printable(f.children) && Printable(f.rest)
  }

  function Margin(d: nat): seq<Token> {
    if d == 0 then [] else [Blank(d)]
  }

  function Print(f: Forest<seq<Token>>, d: nat): seq<Token> {
    if f.Nil? then []
    else Margin(d) + (f.text + ([Newline] + (Print(f.children, f.inner) + Print(f.rest, d))))
  }

  /** The tree with each line's tokens as the lexer passes them on. */
  function Said(f: Forest<seq<Token>>): Forest<seq<Out>> {
    if f.Nil? then Nil else Cons(Contents(Joined(f.text)), f.inner, Said(f.children), Said(f.rest))
  }

  lemma {:induction false} SaidKeeps(f: Forest<seq<Token>>, d: nat)
    requires Nested(f, d) && Printable(f)
    ensures Nested(Said(f), d) && ForestSays(Said(f)) && Said(f).Cons? == f.Cons?
  {
    if f.Cons? {
      SaidKeeps(f.children, f.inner);
      SaidKeeps(f.rest, d);
    }
  }

  /** The counters after reading the text. */
  predicate Counted(open: Counters, text: seq<Token>) {
    open.p == Net(text, Round) && open.s == Net(text, Square) && open.b == Net(text, Curly)
  }

  lemma CountOne(open: Counters, text: seq<Token>, t: Token)
    requires Counted(open, text)
    ensures Counted(open.Count(t), text + [t]) && (open.Inside() <==> InBrackets(text))
  {
  }

  /** Reading goes on to the end of a piece of a line. */
  lemma {:induction false} ReadPiece(done: seq<Token>, text: seq<Token>, open: Counters, raw: seq<Token>, rest: seq<Token>)
    returns (after: Counters)
    requires Counted(open, done)
    requires forall i :: 0 <= i < |text| ==> !text[i].Etc? && (text[i].Newline? ==> InBrackets(done + text[..i]))
    ensures ReadLine(text + rest, open, raw) == ReadLine(rest, after, raw + Joined(text)) && Counted(after, done + text)
    decreases |text|
  {
    hide *;
    if text == [] {
      after := open;
      JoinedFirst(text);
      assert text + rest == rest && raw + [] == raw && done + text == done;
    } else {
      var t, tail := text[0], text[1..];
      var next := if t.Newline? then raw else raw + [t];
      assert text[..0] == [] && done + [] == done;
      CountOne(open, done, t);
      ReadOne(t, tail + rest, open, raw);
      JoinedFirst(text);
      assert text + rest == [t] + (tail + rest) && (done + [t]) + tail == done + text;
      forall i | 0 <= i < |tail|
        ensures !tail[i].Etc? && (tail[i].Newline? ==> InBrackets((done + [t]) + tail[..i]))
      {
        assert (done + [t]) + tail[..i] == done + text[..i + 1] && text[i + 1] == tail[i];
      }
      after := ReadPiece(done + [t], tail, open.Count(t), next, rest);
      assert next + Joined(tail) == raw + ((if t.Newline? then [] else [t]) + Joined(tail));
    }
  }

  lemma JoinedFirst(text: seq<Token>)
    ensures Joined(text) == if text == [] then [] else (if text[0].Newline? then [] else [text[0]]) + Joined(text[1..])
  {
  }

  lemma ReadOne(t: Token, ts: seq<Token>, open: Counters, raw: seq<Token>)
    requires !t.Etc? && (t.Newline? ==> open.Inside())
    ensures ReadLine([t] + ts, open, raw) == ReadLine(ts, open.Count(t), if t.Newline? then raw else raw + [t])
  {
    assert ([t] + ts)[1..] == ts;
  }

  lemma LineEnds(open: Counters, text: seq<Token>, raw: seq<Token>, rest: seq<Token>)
    requires Counted(open, text) && !InBrackets(text)
    ensures ReadLine([Newline] + rest, open, raw) == Line(raw, rest)
  {
    assert ([Newline] + rest)[1..] == rest;
  }

  lemma ReadPrinted(text: seq<Token>, raw: seq<Token>, rest: seq<Token>)
    requires OneLine(text)
    ensures ReadLine(text + ([Newline] + rest), ZERO, raw) == Line(raw + Joined(text), rest)
  {
    assert Counted(ZERO, []);
    hide ReadLine, InBrackets, Counted, Joined;
    assert forall i :: 0 <= i < |text| ==> [] + text[..i] == text[..i];
    var after := ReadPiece([], text, ZERO, raw, [Newline] + rest);
    assert [] + text == text;
    LineEnds(after, text, raw + Joined(text), rest);
  }

  /** A line is read up to the first line end outside all brackets, without the line ends inside. */
  lemma BracketsJoin(text: seq<Token>, rest: seq<Token>)
    requires OneLine(text)
    ensures ReadLine(text + ([Newline] + rest), ZERO, []) == Line(Joined(text), rest)
  {
    ReadPrinted(text, [], rest);
    hide *;
    assert [] + Joined(text) == Joined(text);
  }

  lemma {:induction false} EllipsisPasses(blanks: seq<Token>, t: Token, rest: seq<Token>)
    requires (forall i :: 0 <= i < |blanks| ==> blanks[i].Blank?) && !t.Blank?
    ensures EllipsisFits(blanks + ([t] + rest)) <==> t.Newline?
    ensures t.Newline? ==> SkipEllipsis(blanks + ([t] + rest)) == rest
    ensures !EllipsisFits(blanks)
    decreases |blanks|
  {
    var ts := blanks + ([t] + rest);
    if blanks == [] {
      assert ts == [t] + rest && ts[1..] == rest;
    } else {
      assert ts[1..] == blanks[1..] + ([t] + rest);
      EllipsisPasses(blanks[1..], t, rest);
    }
  }

  /** An ellipsis joins the next line if nothing but blanks is between it and the line end; otherwise, or at the end of the
      input, it is an error. */
  lemma EllipsisExactly(blanks: seq<Token>, t: Token, rest: seq<Token>, open: Counters, raw: seq<Token>)
    requires (forall i :: 0 <= i < |blanks| ==> blanks[i].Blank?) && !t.Blank?
    ensures ReadLine([Etc] + (blanks + ([t] + rest)), open, raw)
      == if t.Newline? then ReadLine(rest, open, raw) else BadEllipsis
    ensures ReadLine([Etc] + blanks, open, raw) == BadEllipsis
  {
    EllipsisPasses(blanks, t, rest);
    assert ([Etc] + (blanks + ([t] + rest)))[1..] == blanks + ([t] + rest);
    assert ([Etc] + blanks)[1..] == blanks;
  }

  /** A line in two pieces with an ellipsis between them. */
  lemma EllipsisJoins(first: seq<Token>, blanks: seq<Token>, second: seq<Token>, rest: seq<Token>)
    requires OneLine(first + second) && forall i :: 0 <= i < |blanks| ==> blanks[i].Blank?
    ensures ReadLine(first + ([Etc] + (blanks + ([Newline] + (second + ([Newline] + rest))))), ZERO, [])
      == Line(Joined(first) + Joined(second), rest)
  {
    var all := first + second;
    var tail := second + ([Newline] + rest);
    assert Counted(ZERO, []) && !InBrackets(all);
    forall i | 0 <= i < |first|
      ensures !first[i].Etc? && (first[i].Newline? ==> InBrackets([] + first[..i]))
    {
      assert all[i] == first[i] && all[..i] == [] + first[..i];
    }
    forall i | 0 <= i < |second|
      ensures !second[i].Etc? && (second[i].Newline? ==> InBrackets(first + second[..i]))
    {
      assert all[|first| + i] == second[i] && all[..|first| + i] == first + second[..i];
    }
    hide *;
    assert [] + first == first && [] + Joined(first) == Joined(first);
    var middle := ReadPiece([], first, ZERO, [], [Etc] + (blanks + ([Newline] + tail)));
    EllipsisExactly(blanks, Newline, tail, middle, Joined(first));
    var after := ReadPiece(first, second, middle, Joined(first), [Newline] + rest);
    LineEnds(after, all, Joined(first) + Joined(second), rest);
  }

  /** Reading a printed line with its margin. */
  lemma ReadMargin(text: seq<Token>, d: nat, rest: seq<Token>)
    requires OneLine(text)
    ensures ReadLine(Margin(d) + (text + ([Newline] + rest)), ZERO, []) == Line(Margin(d) + Joined(text), rest)
  {
    var ts := text + ([Newline] + rest);
    if d == 0 {
      assert [] + ts == ts;
      ReadPrinted(text, [], rest);
    } else {
      assert ([Blank(d)] + ts)[1..] == ts;
      assert [] + [Blank(d)] == [Blank(d)];
      ReadPrinted(text, [Blank(d)], rest);
    }
  }

  /** The line that comes out of it. */
  lemma MarginLine(text: seq<Token>, d: nat)
    requires text != [] && !text[0].Blank? && OneLine(text) && Says(Contents(Joined(text)))
    ensures var raw := Margin(d) + Joined(text);
      !IsBlank(raw) && Indentation(raw) == d && Contents(raw) == Contents(Joined(text))
  {
    var raw, joined := Margin(d) + Joined(text), Joined(text);
    assert joined != [] && joined[0] == text[0];
    if d > 0 {
      assert raw[1..] == joined;
      assert Contents(raw) == [] + Contents(joined);
    } else {
      assert raw == joined;
    }
  }

  lemma {:induction false} LinesOfPrint(f: Forest<seq<Token>>, d: nat, rest: seq<Token>)
    requires Nested(f, d) && Printable(f) && EllipsesFit(rest)
    ensures EllipsesFit(Print(f, d) + rest)
    ensures SourceLines(Print(f, d) + rest) == Lines(Said(f), d) + SourceLines(rest)
    decreases f
  {
    if f.Nil? {
      assert [] + rest == rest && [] + SourceLines(rest) == SourceLines(rest);
    } else {
      var below, after := Print(f.children, f.inner), Print(f.rest, d);
      var line := Src(d, Contents(Joined(f.text)));
      assert Print(f, d) == Margin(d) + (f.text + ([Newline] + (below + after)));
      LinesOfItem(line, d, f.inner, Said(f.children), Said(f.rest), SourceLines(rest));
      assert Said(f) == Cons(line.out, f.inner, Said(f.children), Said(f.rest));
      MarginLine(f.text, d);
      hide Print, Said, Contents, Joined, Says, OneLine, Margin, Lines, SourceLines, EllipsesFit, ReadLine, IsBlank, Indentation;
      LinesOfPrint(f.rest, d, rest);
      LinesOfPrint(f.children, f.inner, after + rest);
      ReadMargin(f.text, d, below + (after + rest));
      FirstLine(Margin(d) + (f.text + ([Newline] + (below + (after + rest)))));
      PrintParts(Margin(d), f.text, below, after, rest);
    }
  }

  lemma FirstLine(ts: seq<Token>)
    requires ReadLine(ts, ZERO, []).Line? && !IsBlank(ReadLine(ts, ZERO, []).raw)
    ensures var read := ReadLine(ts, ZERO, []);
      && EllipsesFit(ts) == EllipsesFit(read.rest)
      && SourceLines(ts) == [Src(Indentation(read.raw), Contents(read.raw))] + SourceLines(read.rest)
  {
  }

  lemma PrintParts(margin: seq<Token>, text: seq<Token>, below: seq<Token>, after: seq<Token>, rest: seq<Token>)
    ensures (margin + (text + ([Newline] + (below + after)))) + rest == margin + (text + ([Newline] + (below + (after + rest))))
  {
  }

  /** The layout algorithm inverts the printer: for every tree and every choice of indentations, the parser is given
      exactly the tree's START, SEP and END tokens. */
  lemma LayoutInvertsPrinting(f: Forest<seq<Token>>, d: nat)
    requires f.Cons? && Nested(f, d) && Printable(f)
    ensures Layout(Print(f, d), []) == Stream(Flat(Said(f)), Complete)
  {
    LinesOfPrint(f, d, []);
    assert Print(f, d) + [] == Print(f, d);
    assert Lines(Said(f), d) + [] == Lines(Said(f), d);
    SaidKeeps(f, d);
    LinesSay(Said(f), d);
    LayoutIsRun(Print(f, d), []);
    AcceptedAreTrees(Lines(Said(f), d));
    assert IsTree(Said(f), d, Lines(Said(f), d));
  }
}
