/** The layout algorithm undoes indentation: what it accepts are exactly the indented prints of block trees, and what
    it delivers is the tree. */
module LayoutTrees {
  import opened BuildTree

  /** A block of lines; below each line there may be a block of its own, printed at indentation `inner`. */
  datatype Forest<T> = Nil | Cons(text: T, inner: nat, children: Forest<T>, rest: Forest<T>)

  /** Every inner block is indented more than the line above it; blocks of one level need not agree. */
  predicate Nested<T>(f: Forest<T>, d: nat) {
    f.Cons? ==> (f.children.Cons? ==> f.inner > d) && Nested(f.children, f.inner) && Nested(f.rest, d)
  }

  /** A source line: its indentation and the tokens it stands for. */
  datatype Src = Src(indent: nat, out: seq<Out>)

  function Lines(f: Forest<seq<Out>>, d: nat): (r: seq<Src>)
    ensures f.Cons? ==> r != [] && r[0].indent == d
  {
    if f.Nil? then [] else [Src(d, f.text)] + (Lines(f.children, f.inner) + Lines(f.rest, d))
  }

  /** The token stream of a tree: each block between START and END, its lines set apart by SEP. */
  function Flat(f: Forest<seq<Out>>): seq<Out>
    decreases f, 1
  {
    if f.Nil? then [] else [START] + (Items(f) + [END])
  }

  function Items(f: Forest<seq<Out>>): seq<Out>
    decreases f, 0
  {
    if f.Nil? then []
    else StripSeps(f.text) + (Flat(f.children) + (if f.rest.Nil? then [] else [SEP] + Items(f.rest)))
  }

  /** The line has a token other than ';'. */
  predicate Says(out: seq<Out>) {
    out != [] && (out[|out| - 1] != SEP || Says(out[..|out| - 1]))
  }

  predicate AllSay(lines: seq<Src>) {
    forall i :: 0 <= i < |lines| ==> Says(lines[i].out)
  }

  // ----- the algorithm on lines -----

  /** Layout, once the lines have been read. */
  function Run(lines: seq<Src>, indents: seq<nat>): Stream {
    if lines == [] then Stream(Ends(|indents|), Complete)
    else
      match Indent(indents, lines[0].indent)
      case Failed(why) => Stream([], why)
      case Opened(out, levels) =>
        var line := StripSeps(out + lines[0].out);
        if line == [] then Stream([], OutOfBounds) else Run(lines[1..], levels).After(line)
  }

  lemma {:induction false} StripKeepsFront(front: seq<Out>, out: seq<Out>)
    requires Says(out)
    ensures StripSeps(front + out) == front + StripSeps(out) && StripSeps(out) != []
  {
    assert (front + out)[..|front + out| - 1] == front + out[..|out| - 1];
    if out[|out| - 1] == SEP {
      StripKeepsFront(front, out[..|out| - 1]);
    }
  }

  /** One line that says something. */
  lemma RunLine(line: Src, lines: seq<Src>, indents: seq<nat>)
    requires Says(line.out)
    ensures var o := Indent(indents, line.indent);
      Run([line] + lines, indents)
      == if o.Failed? then Stream([], o.why) else Run(lines, o.indents).After(o.out + StripSeps(line.out))
  {
    var o := Indent(indents, line.indent);
    assert ([line] + lines)[1..] == lines;
    if o.Opened? {
      StripKeepsFront(o.out, line.out);
    }
  }

  lemma AfterAfter(st: Stream, a: seq<Out>, b: seq<Out>)
    ensures st.After(b).After(a) == st.After(a + b)
  {
    assert a + (b + st.out) == (a + b) + st.out;
  }

  /** The lines to come go back to a level that is open. */
  predicate Returns(lines: seq<Src>, s: seq<nat>) {
    lines == [] || (lines[0].indent <= Top(s) && Indent(s, lines[0].indent).Opened?)
  }

  lemma DedentPast(s: seq<nat>, x: nat, i: nat)
    requires i <= Top(s) < x
    ensures Indent(s + [x], i) == Behind([END], Indent(s, i))
  {
    assert (s + [x])[..|s|] == s;
    assert Dedent(s + [x], i) == Behind([END], Dedent(s, i));
    assert Indent(s, i) == Dedent(s, i);
  }

  /** An inner block is closed first when the lines go on outside it. */
  lemma CloseInner(lines: seq<Src>, s: seq<nat>, x: nat)
    requires Returns(lines, s) && Top(s) < x && AllSay(lines)
    ensures Run(lines, s + [x]) == Run(lines, s).After([END])
  {
    if lines != [] {
      var line := lines[0];
      var o := Indent(s, line.indent);
      assert lines == [line] + lines[1..];
      RunLine(line, lines[1..], s + [x]);
      RunLine(line, lines[1..], s);
      DedentPast(s, x, line.indent);
      hide *;
      assert ([END] + o.out) + StripSeps(line.out) == [END] + (o.out + StripSeps(line.out));
      AfterAfter(Run(lines[1..], o.indents), [END], o.out + StripSeps(line.out));
    }
  }

  // ----- from trees to lines and back to the stream -----

  predicate ForestSays(f: Forest<seq<Out>>) {
    f.Cons? ==> Says(f.text) && ForestSays(f.children) && ForestSays(f.rest)
  }

  lemma {:induction false} LinesSay(f: Forest<seq<Out>>, d: nat)
    requires ForestSays(f)
    ensures AllSay(Lines(f, d))
  {
    if f.Cons? {
      LinesSay(f.children, f.inner);
      LinesSay(f.rest, d);
    }
  }

  lemma IndentTo(s: seq<nat>, d: nat)
    ensures Top(s) < d ==> Indent(s, d) == Opened([START], s + [d])
    ensures Indent(s + [d], d) == Opened([SEP], s + [d])
    ensures Top(s + [d]) == d
  {
  }

  lemma ReturnsInside(tail: seq<Src>, s: seq<nat>, d: nat)
    requires Returns(tail, s) && Top(s) < d
    ensures Returns(tail, s + [d])
  {
    if tail != [] {
      DedentPast(s, d, tail[0].indent);
    }
  }

  /** A whole block, then lines outside it. */
  lemma {:induction false} RunForest(f: Forest<seq<Out>>, d: nat, s: seq<nat>, tail: seq<Src>)
    requires f.Cons? && Nested(f, d) && ForestSays(f) && Top(s) < d && Returns(tail, s) && AllSay(tail)
    ensures Run(Lines(f, d) + tail, s) == Run(tail, s).After(Flat(f))
    decreases f, 1
  {
    IndentTo(s, d);
    ReturnsInside(tail, s, d);
    RunItems(f, d, s, START, s + [d], tail);
    CloseInner(tail, s, d);
    assert Flat(f) == [START] + (Items(f) + [END]);
    hide *;
    AfterAfter(Run(tail, s), [START] + Items(f), [END]);
    assert ([START] + Items(f)) + [END] == [START] + (Items(f) + [END]);
  }

  /** What comes after an item's first line: its block, then the items after it. */
  lemma ItemParts(f: Forest<seq<Out>>, mark: Out, last: Stream) returns (more: seq<Out>)
    requires f.Cons?
    ensures more == if f.rest.Nil? then [] else [SEP] + Items(f.rest)
    ensures last.After(more).After(Flat(f.children)).After([mark] + StripSeps(f.text)) == last.After([mark] + Items(f))
  {
    more := if f.rest.Nil? then [] else [SEP] + Items(f.rest);
    assert Items(f) == StripSeps(f.text) + (Flat(f.children) + more);
    hide *;
    Assembled(last, mark, StripSeps(f.text), Flat(f.children), more);
  }

  lemma Assembled(last: Stream, mark: Out, text: seq<Out>, below: seq<Out>, more: seq<Out>)
    ensures last.After(more).After(below).After([mark] + text) == last.After([mark] + (text + (below + more)))
  {
    AfterAfter(last, below, more);
    AfterAfter(last, [mark] + text, below + more);
    FirstTwo(mark, text, below + more);
  }

  lemma FirstTwo(mark: Out, text: seq<Out>, more: seq<Out>)
    ensures ([mark] + text) + more == [mark] + (text + more)
  {
  }

  /** The items of a block, reached with `mark` before its first line and the block open after it. */
  lemma {:induction false} RunItems(f: Forest<seq<Out>>, d: nat, s: seq<nat>, mark: Out, levels: seq<nat>, tail: seq<Src>)
    requires f.Cons? && Nested(f, d) && ForestSays(f) && AllSay(tail) && Returns(tail, levels)
    requires Top(levels) == d && Indent(s, d) == Opened([mark], levels)
    ensures Run(Lines(f, d) + tail, s) == Run(tail, levels).After([mark] + Items(f))
    decreases f, 0
  {
    var below, after := Lines(f.children, f.inner), Lines(f.rest, d);
    assert Lines(f, d) == [Src(d, f.text)] + (below + after);
    assert f.children.Nil? ==> below == [] && Flat(f.children) == [];
    assert f.rest.Nil? ==> after == [];
    assert Indent(levels, d) == Opened([SEP], levels);
    assert Returns(after + tail, levels);
    hide Run, Lines, Items, Flat, Indent, Dedent, StripSeps;
    assert ([Src(d, f.text)] + (below + after)) + tail == [Src(d, f.text)] + (below + (after + tail));
    LinesSay(f.children, f.inner);
    LinesSay(f.rest, d);
    RunLine(Src(d, f.text), below + (after + tail), s);
    var more := ItemParts(f, mark, Run(tail, levels));
    if f.children.Cons? {
      RunForest(f.children, f.inner, levels, after + tail);
    } else {
      assert [] + (after + tail) == after + tail;
      AfterNothing(Run(after + tail, levels));
    }
    if f.rest.Cons? {
      RunItems(f.rest, d, levels, SEP, levels, tail);
    } else {
      assert [] + tail == tail;
      AfterNothing(Run(tail, levels));
    }
  }

  // ----- from lines to a tree -----

  /** Between two open levels no line is accepted. */
  lemma BetweenLevels(s: seq<nat>, x: nat, i: nat)
    requires s != [] && Top(s) < i < x
    ensures Indent(s + [x], i).Failed?
  {
    assert (s + [x])[..|s|] == s;
    assert Dedent(s, i) == Failed(BadIndentation);
    assert Dedent(s + [x], i) == Behind([END], Dedent(s, i));
  }

  /** How the stream ends after a line. */
  lemma EndingAfter(line: Src, lines: seq<Src>, s: seq<nat>)
    requires Says(line.out)
    ensures var o := Indent(s, line.indent);
      Run([line] + lines, s).ending == if o.Failed? then o.why else Run(lines, o.indents).ending
  {
    RunLine(line, lines, s);
  }

  lemma {:induction false} NeverFailsComplete(s: seq<nat>, i: nat)
    ensures Indent(s, i).Failed? ==> Indent(s, i).why != Complete
  {
    DedentFails(s, i);
  }

  lemma {:induction false} DedentFails(s: seq<nat>, i: nat)
    ensures Dedent(s, i).Failed? ==> Dedent(s, i).why != Complete
  {
    if s != [] {
      DedentFails(s[..|s| - 1], i);
    }
  }

  /** An accepted continuation of an inner block is an accepted continuation of the outer one. */
  lemma DropInner(lines: seq<Src>, s: seq<nat>, x: nat)
    requires AllSay(lines) && s != [] && Top(s) < x && (lines != [] ==> lines[0].indent < x)
    requires Run(lines, s + [x]).ending == Complete
    ensures Run(lines, s).ending == Complete && (lines != [] ==> lines[0].indent <= Top(s))
  {
    if lines != [] {
      var line, more := lines[0], lines[1..];
      hide Run, Indent, Dedent;
      assert lines == [line] + more;
      EndingAfter(line, more, s + [x]);
      EndingAfter(line, more, s);
      NeverFailsComplete(s + [x], line.indent);
      if line.indent <= Top(s) {
        DedentPast(s, x, line.indent);
      } else {
        BetweenLevels(s, x, line.indent);
      }
    } else {
      assert Run([], s).ending == Complete;
    }
  }

  /** Reads a block off accepted lines; what is left goes back to an outer level. */
  lemma {:induction false} BuildBlock(lines: seq<Src>, d: nat, s: seq<nat>) returns (f: Forest<seq<Out>>, left: seq<Src>)
    requires lines != [] && AllSay(lines) && lines[0].indent == d && s != [] && Top(s) == d
    requires Run(lines, s).ending == Complete
    ensures f.Cons? && Nested(f, d) && ForestSays(f) && Lines(f, d) + left == lines
    ensures Run(left, s).ending == Complete && AllSay(left) && (left != [] ==> left[0].indent < d)
    decreases |lines|, 0
  {
    var first, more := lines[0], lines[1..];
    assert Indent(s, d) == Opened([SEP], s);
    NoLines(d);
    NoLines(0);
    hide Run, Indent, Dedent, Lines, Nested, Says;
    assert lines == [first] + more;
    EndingAfter(first, more, s);
    var children, inner, after := Nil, 0, more;
    if more != [] && more[0].indent > d {
      inner := more[0].indent;
      children, after := BuildInner(more, d, s);
    } else {
      assert [] + more == more;
    }
    var rest: Forest<seq<Out>> := Nil;
    left := after;
    if after != [] && after[0].indent == d {
      rest, left := BuildBlock(after, d, s);
    } else {
      assert [] + after == after;
    }
    f := Cons(first.out, inner, children, rest);
    LinesOfItem(first, d, inner, children, rest, left);
    assert Nested(f, d) by { NestedItem(first.out, inner, children, rest, d); }
  }

  lemma NestedItem(text: seq<Out>, inner: nat, children: Forest<seq<Out>>, rest: Forest<seq<Out>>, d: nat)
    requires Nested(children, inner) && Nested(rest, d) && (children.Cons? ==> inner > d)
    ensures Nested(Cons(text, inner, children, rest), d)
  {
  }

  lemma NoLines(d: nat)
    ensures Lines(Nil, d) == []
  {
  }

  lemma LinesOfItem(first: Src, d: nat, inner: nat, children: Forest<seq<Out>>, rest: Forest<seq<Out>>, left: seq<Src>)
    requires first.indent == d
    ensures Lines(Cons(first.out, inner, children, rest), d) + left
      == [first] + (Lines(children, inner) + (Lines(rest, d) + left))
  {
    var below, after := Lines(children, inner), Lines(rest, d);
    assert Lines(Cons(first.out, inner, children, rest), d) == [first] + (below + after);
    hide *;
    assert ([first] + (below + after)) + left == [first] + (below + (after + left));
  }

  lemma {:induction false} BuildInner(lines: seq<Src>, d: nat, s: seq<nat>) returns (f: Forest<seq<Out>>, left: seq<Src>)
    requires lines != [] && AllSay(lines) && lines[0].indent > d && s != [] && Top(s) == d
    requires Run(lines, s).ending == Complete
    ensures f.Cons? && Nested(f, lines[0].indent) && ForestSays(f) && Lines(f, lines[0].indent) + left == lines
    ensures |left| < |lines|
    ensures Run(left, s).ending == Complete && AllSay(left) && (left != [] ==> left[0].indent <= d)
    decreases |lines|, 1
  {
    var e := lines[0].indent;
    IndentTo(s, e);
    hide Run, Indent, Dedent, Lines;
    assert lines == [lines[0]] + lines[1..];
    EndingAfter(lines[0], lines[1..], s);
    EndingAfter(lines[0], lines[1..], s + [e]);
    f, left := BuildBlock(lines, e, s + [e]);
    DropInner(left, s, e);
    assert Lines(f, e) != [];
  }
}
