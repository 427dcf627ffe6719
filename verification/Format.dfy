/** Format strings (vm/format.c) and the backtick strings that lang/tree-morph.c turns into them. */
module Format {
  import opened Options

  datatype Element = Text(text: string) | Number(n: int)

  /** strtol with base 0 on a whole parameter; None where it does not use the parameter up. */
  type Strtol = string -> Option<int>

  function Find(s: string, c: char): (r: Option<nat>)
    ensures r.Some? ==> r.value < |s| && s[r.value] == c && c !in s[..r.value]
    ensures r.None? ==> c !in s
  {
    if s == [] then None
    else if s[0] == c then Some(0)
    else
      match Find(s[1..], c)
      case None => None
      case Some(i) =>
        assert s[..i + 1] == [s[0]] + s[1..][..i];
        Some(i + 1)
  }

  // ----- format_parse -----

  function StripEnd(s: string): string {
    if s != [] && s[|s| - 1] == ' ' then StripEnd(s[..|s| - 1]) else s
  }

  function StripStart(s: string): string {
    if s != [] && s[0] == ' ' then StripStart(s[1..]) else s
  }

  predicate IsDigit(c: char) {
    '0' <= c <= '9'
  }

  /** What stands between braces, spaces stripped: an element, or None for a parse error. */
  function Param(p: string, auto: int, strtol: Strtol): Option<Element> {
    if p == [] then Some(Number(auto))
    else if IsDigit(p[0]) then
      match strtol(p)
      case None => None
      case Some(n) => if n == 0 then None else Some(Number(n))
    else if p[0] == '{' then Some(Text("{"))
    else if p[0] == '}' then Some(Text("}"))
    else None
  }

  /** format_parse, with the counter for empty braces at `auto`. */
  function Parse(f: string, auto: int, strtol: Strtol): Option<seq<Element>>
    decreases |f|
  {
    if f == [] then Some([])
    else if f[0] == '{' then
      match Find(f, '}')
      case None => None
      case Some(k) =>
        var p := StripStart(StripEnd(f[1..k]));
        var e := Param(p, auto, strtol);
        if e.None? then None
        else
          var rest := Parse(f[k + 1..], if p == [] then auto + 1 else auto, strtol);
          if rest.None? then None else Some([e.value] + rest.value)
    else
      var k := Find(f, '{');
      var n := if k.Some? then k.value else |f|;
      var rest := Parse(f[n..], auto, strtol);
      if rest.None? then None else Some([Text(f[..n])] + rest.value)
  }

  /** The parser's loop over the string. */
  method FormatParse(f: string, strtol: Strtol) returns (r: Option<seq<Element>>)
    ensures r == Parse(f, 1, strtol)
  {
    var cur, autocounter, elements := 0, 1, [];
    assert f[0..] == f;
    BeforeNothing(Parse(f, 1, strtol));
    hide StripStart, StripEnd, Param, Find;
    while cur < |f|
      invariant 0 <= cur <= |f|
      invariant Parse(f, 1, strtol) == Before(elements, Parse(f[cur..], autocounter, strtol))
    {
      var rest := f[cur..];
      if rest[0] == '{' {
        var k := Find(rest, '}');
        if k.None? {
          return None;
        }
        var p := StripStart(StripEnd(rest[1..k.value]));
        var e := Param(p, autocounter, strtol);
        if e.None? {
          return None;
        }
        BeforeBefore(elements, e.value, Parse(rest[k.value + 1..], if p == [] then autocounter + 1 else autocounter, strtol));
        elements := elements + [e.value];
        autocounter := if p == [] then autocounter + 1 else autocounter;
        cur := cur + k.value + 1;
        assert f[cur..] == rest[k.value + 1..];
      } else {
        var k := Find(rest, '{');
        var n := if k.Some? then k.value else |rest|;
        BeforeBefore(elements, Text(rest[..n]), Parse(rest[n..], autocounter, strtol));
        elements := elements + [Text(rest[..n])];
        cur := cur + n;
        assert f[cur..] == rest[n..];
      }
    }
    assert f[cur..] == [] && elements + [] == elements;
    return Some(elements);
  }

  lemma BeforeNothing(r: Option<seq<Element>>)
    ensures Before([], r) == r
  {
    if r.Some? {
      assert [] + r.value == r.value;
    }
  }

  function Before(first: seq<Element>, rest: Option<seq<Element>>): Option<seq<Element>> {
    if rest.None? then None else Some(first + rest.value)
  }

  lemma BeforeBefore(first: seq<Element>, e: Element, rest: Option<seq<Element>>)
    ensures Before(first, Before([e], rest)) == Before(first + [e], rest)
  {
    if rest.Some? {
      assert first + ([e] + rest.value) == (first + [e]) + rest.value;
    }
  }

  // ----- format_to_string -----

  /** A 64-bit number cut to a C int, as the first pass does. */
  function ToInt(n: int): int {
    var m := n % 0x1_0000_0000;
    if m < 0x8000_0000 then m else m - 0x1_0000_0000
  }

  /** The first pass finds an argument for the element. */
  predicate FoundFirst(e: Element, count: nat) {
    e.Number? ==> 0 <= ToInt(e.n - 1) < count
  }

  /** The second pass reads an argument there is. */
  predicate FoundSecond(e: Element, count: nat) {
    e.Number? ==> 0 <= e.n - 1 < count
  }

  function Show(e: Element, strings: seq<string>): string
    requires FoundSecond(e, |strings|)
  {
    match e
    case Text(t) => t
    case Number(n) => strings[n - 1]
  }

  ghost predicate AllFound(elements: seq<Element>, count: nat) {
    forall i :: 0 <= i < |elements| ==> FoundSecond(elements[i], count)
  }

  function ShowAll(elements: seq<Element>, strings: seq<string>): string
    requires AllFound(elements, |strings|)
  {
    if elements == [] then "" else Show(elements[0], strings) + ShowAll(elements[1..], strings)
  }

  lemma {:induction false} ShowAllAppend(a: seq<Element>, b: seq<Element>, strings: seq<string>)
    requires AllFound(a, |strings|) && AllFound(b, |strings|)
    ensures AllFound(a + b, |strings|)
    ensures ShowAll(a + b, strings) == ShowAll(a, strings) + ShowAll(b, strings)
  {
    if a == [] {
      assert a + b == b;
    } else {
      assert (a + b)[1..] == a[1..] + b;
      ShowAllAppend(a[1..], b, strings);
    }
  }

  /** Text for the buffer: characters followed by the terminating zero. */
  method Strcpy(out: array<char>, at: nat, s: string)
    requires at + |s| < out.Length
    modifies out
    ensures out[..at + |s| + 1] == old(out[..at]) + s + ['\0']
  {
    for i := 0 to |s|
      invariant out[..at + i] == old(out[..at]) + s[..i]
    {
      out[at + i] := s[i];
      assert out[..at + i + 1] == out[..at + i] + [s[i]];
    }
    out[at + |s|] := '\0';
    assert out[..at + |s| + 1] == out[..at + |s|] + ['\0'];
  }

  /** The first pass finds an argument for every element. */
  ghost predicate AllFoundFirst(elements: seq<Element>, count: nat) {
    forall i :: 0 <= i < |elements| ==> FoundFirst(elements[i], count)
  }

  /** The argument's length, where the first pass looks for it. */
  function LengthFirst(e: Element, strings: seq<string>): nat
    requires FoundFirst(e, |strings|)
  {
    match e
    case Text(t) => |t|
    case Number(n) => |strings[ToInt(n - 1)]|
  }

  /** The length that the first pass counts for the first `i` elements. */
  function Counted(elements: seq<Element>, i: nat, strings: seq<string>): nat
    requires i <= |elements| && AllFoundFirst(elements[..i], |strings|)
  {
    if i == 0 then 0
    else
      assert FoundFirst(elements[..i][i - 1], |strings|) && elements[..i][..i - 1] == elements[..i - 1];
      Counted(elements, i - 1, strings) + LengthFirst(elements[i - 1], strings)
  }

  lemma {:induction false} CountedGrows(elements: seq<Element>, i: nat, j: nat, strings: seq<string>)
    requires i <= j <= |elements| && AllFoundFirst(elements[..j], |strings|)
    ensures AllFoundFirst(elements[..i], |strings|)
    ensures Counted(elements, i, strings) <= Counted(elements, j, strings)
    decreases j
  {
    assert elements[..j][..i] == elements[..i];
    if i < j {
      assert elements[..j][..j - 1] == elements[..j - 1];
      CountedGrows(elements, i, j - 1, strings);
    }
  }

  /** The first pass: the length of the output and its terminating zero, or None for an exception. */
  method CountOutput(elements: seq<Element>, strings: seq<string>) returns (r: Option<nat>)
    ensures r.Some? <==> AllFoundFirst(elements, |strings|)
    ensures r.Some? ==> AllFoundFirst(elements[..|elements|], |strings|) && r.value == 1 + Counted(elements, |elements|, strings)
  {
    var outLen := 1;
    for i := 0 to |elements|
      invariant AllFoundFirst(elements[..i], |strings|)
      invariant outLen == 1 + Counted(elements, i, strings)
    {
      var e := elements[i];
      if !FoundFirst(e, |strings|) {
        return None;
      }
      assert elements[..i + 1] == elements[..i] + [e];
      outLen := outLen + LengthFirst(e, strings);
    }
    assert elements[..|elements|] == elements;
    return Some(outLen);
  }

  /** The second pass: every piece is written below the end of the buffer. None is a read outside the arguments. */
  method WriteOutput(elements: seq<Element>, strings: seq<string>, out: array<char>) returns (r: Option<nat>)
    requires |strings| < 0x8000_0000 && AllFoundFirst(elements[..|elements|], |strings|)
    requires out.Length == 1 + Counted(elements, |elements|, strings)
    modifies out
    ensures r.Some? <==> AllFound(elements, |strings|)
    ensures r.Some? ==> r.value == out.Length - 1 && out[..r.value] == ShowAll(elements, strings)
    ensures r.Some? && elements != [] ==> out[r.value] == '\0'
  {
    hide Show, ShowAll, Counted, LengthFirst, FoundFirst, FoundSecond;
    var at := 0;
    ShowNone(elements, strings);
    for i := 0 to |elements|
      invariant AllFound(elements[..i], |strings|) && AllFoundFirst(elements[..i], |strings|)
      invariant at == |ShowAll(elements[..i], strings)| == Counted(elements, i, strings) < out.Length
      invariant out[..at] == ShowAll(elements[..i], strings)
      invariant i > 0 ==> out[at] == '\0'
    {
      var e := elements[i];
      if !FoundSecond(e, |strings|) {
        return None;
      }
      var s := Show(e, strings);
      CountedGrows(elements, i + 1, |elements|, strings);
      ShowMore(elements, i, strings);
      Strcpy(out, at, s);
      assert out[..at + |s|] == out[..at + |s| + 1][..at + |s|];
      assert out[at + |s|] == out[..at + |s| + 1][at + |s|];
      at := at + |s|;
    }
    assert elements[..|elements|] == elements;
    return Some(at);
  }

  lemma ShowNone(elements: seq<Element>, strings: seq<string>)
    ensures ShowAll(elements[..0], strings) == "" && Counted(elements, 0, strings) == 0
  {
  }

  /** Both passes take one more element. */
  lemma ShowMore(elements: seq<Element>, i: nat, strings: seq<string>)
    requires i < |elements| && |strings| < 0x8000_0000
    requires AllFound(elements[..i], |strings|) && AllFoundFirst(elements[..i + 1], |strings|)
    requires FoundSecond(elements[i], |strings|)
    ensures AllFound(elements[..i + 1], |strings|) && AllFoundFirst(elements[..i], |strings|)
    ensures ShowAll(elements[..i + 1], strings) == ShowAll(elements[..i], strings) + Show(elements[i], strings)
    ensures Counted(elements, i + 1, strings) == Counted(elements, i, strings) + |Show(elements[i], strings)|
  {
    var e := elements[i];
    assert elements[..i + 1] == elements[..i] + [e] && elements[..i + 1][i] == e;
    ShowAllAppend(elements[..i], [e], strings);
    assert [e][1..] == [];
    assert ShowAll([e], strings) == Show(e, strings);
  }

  datatype Result = Formatted(text: string) | Raises | OutOfBounds | Unwritten

  /** format_to_string of a parsed format string. Of an empty one the source returns a buffer that nothing was written to. */
  method FormatToString(elements: seq<Element>, strings: seq<string>) returns (r: Result)
    requires |strings| < 0x8000_0000
    ensures r ==
      if !AllFoundFirst(elements, |strings|) then Raises
      else if elements == [] then Unwritten
      else if !AllFound(elements, |strings|) then OutOfBounds
      else Formatted(ShowAll(elements, strings))
  {
    hide ShowAll, Counted;
    var outLen := CountOutput(elements, strings);
    if outLen.None? {
      return Raises;
    }
    var out := new char[outLen.value];
    var at := WriteOutput(elements, strings, out);
    if elements == [] {
      return Unwritten;
    }
    if at.None? {
      return OutOfBounds;
    }
    return Formatted(out[..at.value]);
  }

  // ----- where the passes part -----

  /** What the first pass lets through, the second pass finds, if and only if the number is from 1 to 2^31 or its low 32 bits
      name no argument. */
  lemma PassesPartExactly(e: Element, count: nat)
    requires e.Number? && count < 0x8000_0000
    ensures (FoundFirst(e, count) ==> FoundSecond(e, count))
      <==> (1 <= e.n <= 0x8000_0000 || (e.n - 1) % 0x1_0000_0000 >= count)
  {
  }

  /** A format string makes the second pass read outside the arguments if and only if the low 32 bits of all its numbers name
      arguments and some number is not from 1 to 2^31. */
  lemma OutOfBoundsExactly(elements: seq<Element>, count: nat)
    requires count < 0x8000_0000
    ensures AllFoundFirst(elements, count) && !AllFound(elements, count) <==>
      && (forall i :: 0 <= i < |elements| && elements[i].Number? ==> (elements[i].n - 1) % 0x1_0000_0000 < count)
      && (exists i :: 0 <= i < |elements| && elements[i].Number? && !(1 <= elements[i].n <= 0x8000_0000))
  {
    assert forall i :: 0 <= i < |elements| && elements[i].Number? ==>
      (FoundFirst(elements[i], count) <==> (elements[i].n - 1) % 0x1_0000_0000 < count);
    forall i | 0 <= i < |elements| && elements[i].Number?
      ensures (FoundFirst(elements[i], count) ==> FoundSecond(elements[i], count))
        <==> (1 <= elements[i].n <= 0x8000_0000 || (elements[i].n - 1) % 0x1_0000_0000 >= count)
    {
      PassesPartExactly(elements[i], count);
    }
    hide FoundFirst;
    if i :| 0 <= i < |elements| && elements[i].Number? && !(1 <= elements[i].n <= 0x8000_0000) {
      assert !FoundSecond(elements[i], count);
    }
  }

  /** Every number that strtol reads can come out of a format string. */
  lemma ParseOfDigits(p: string, n: int, strtol: Strtol)
    requires p != [] && (forall i :: 0 <= i < |p| ==> IsDigit(p[i])) && strtol(p) == Some(n) && n != 0
    ensures Parse("{" + p + "}", 1, strtol) == Some([Number(n)])
  {
    var f := "{" + p + "}";
    assert f[1..|p| + 1] == p && f[|p| + 1] == '}' && f[|p| + 2..] == [];
    assert forall i :: 0 <= i < |p| + 1 ==> f[i] != '}';
    var k := Find(f, '}');
    assert k.Some? && k.value == |p| + 1;
    assert StripStart(StripEnd(p)) == p;
    hide Find, StripStart, StripEnd;
    assert Parse(f[|p| + 2..], 1, strtol) == Some([]);
    assert Param(p, 1, strtol) == Some(Number(n));
    assert f[0] == '{' && f[k.value + 1..] == f[|p| + 2..];
    assert [Number(n)] + [] == [Number(n)];
    assert Parse(f, 1, strtol) == Some([Number(n)] + []);
  }

  /** "{4294967297}", or its number written in any other way, with one argument: the first pass cuts the number to an int and
      finds the argument, the second reads far past it. */
  lemma PassesPart(p: string, strtol: Strtol)
    requires p != [] && (forall i :: 0 <= i < |p| ==> IsDigit(p[i])) && strtol(p) == Some(4294967297)
    ensures var elements := [Number(4294967297)];
      Parse("{" + p + "}", 1, strtol) == Some(elements) && AllFoundFirst(elements, 1) && !AllFound(elements, 1)
  {
    hide Parse;
    ParseOfDigits(p, 4294967297, strtol);
    var elements := [Number(4294967297)];
    assert !FoundSecond(elements[0], 1);
  }

  // ----- what a format string says, part by part -----

  predicate Spaces(s: string) {
    forall i :: 0 <= i < |s| ==> s[i] == ' '
  }

  /** Neither empty nor with a space at either end. */
  predicate Tight(s: string) {
    s != [] && s[0] != ' ' && s[|s| - 1] != ' '
  }

  lemma {:induction false} StripEndIs(s: string, sp: string)
    requires Spaces(sp) && (s == [] || s[|s| - 1] != ' ')
    ensures StripEnd(s + sp) == s
    decreases |sp|
  {
    if sp == [] {
      assert s + sp == s;
    } else {
      assert (s + sp)[..|s + sp| - 1] == s + sp[..|sp| - 1];
      StripEndIs(s, sp[..|sp| - 1]);
    }
  }

  lemma {:induction false} StripStartIs(sp: string, s: string)
    requires Spaces(sp) && (s == [] || s[0] != ' ')
    ensures StripStart(sp + s) == s
    decreases |sp|
  {
    if sp == [] {
      assert sp + s == s;
    } else {
      assert (sp + s)[1..] == sp[1..] + s;
      StripStartIs(sp[1..], s);
    }
  }

  lemma StripIs(before: string, core: string, after: string)
    requires Spaces(before) && Spaces(after) && (core == [] || Tight(core))
    ensures StripStart(StripEnd(before + (core + after))) == core
  {
    if core == [] {
      assert before + (core + after) == [] + (before + after);
      assert Spaces(before + after);
      StripEndIs([], before + after);
    } else {
      assert before + (core + after) == (before + core) + after;
      StripEndIs(before + core, after);
      StripStartIs(before, core);
    }
  }

  lemma {:induction false} FindIs(a: string, c: char, b: string)
    requires c !in a
    ensures Find(a + ([c] + b), c) == Some(|a|)
  {
    var s := a + ([c] + b);
    if a == [] {
      assert s[0] == c;
    } else {
      assert s[0] == a[0] && s[1..] == a[1..] + ([c] + b);
      FindIs(a[1..], c, b);
    }
  }

  /** One parameter, between its braces. */
  lemma ParseParameter(f: string, k: nat, auto: int, strtol: Strtol)
    requires f != [] && f[0] == '{' && 0 < k < |f| && Find(f, '}') == Some(k)
    ensures var p := StripStart(StripEnd(f[1..k]));
      var e := Param(p, auto, strtol);
      Parse(f, auto, strtol) ==
        if e.None? then None else Before([e.value], Parse(f[k + 1..], if p == [] then auto + 1 else auto, strtol))
  {
    hide Find, StripStart, StripEnd, Param;
  }

  /** What a parameter, with any spaces around it, stands for: nothing, for the next argument; digits, for the argument that
      strtol reads off them, which does not count as the next; an opening brace, for itself; and anything else for an error. */
  lemma ParameterExactly(before: string, core: string, after: string, rest: string, auto: int, strtol: Strtol)
    requires Spaces(before) && Spaces(after) && (core == [] || Tight(core)) && '}' !in core
    ensures var f := "{" + ((before + (core + after)) + ("}" + rest));
      Parse(f, auto, strtol) ==
        if core == [] then Before([Number(auto)], Parse(rest, auto + 1, strtol))
        else if '0' <= core[0] <= '9' then
          if strtol(core).None? || strtol(core) == Some(0) then None
          else Before([Number(strtol(core).value)], Parse(rest, auto, strtol))
        else if core[0] == '{' then Before([Text("{")], Parse(rest, auto, strtol))
        else None
  {
    var inner := before + (core + after);
    var f := "{" + (inner + ("}" + rest));
    hide StripStart, StripEnd, Find, Parse;
    assert '}' !in inner;
    assert f == ("{" + inner) + (['}'] + rest) && f[0] == '{';
    FindIs("{" + inner, '}', rest);
    StripIs(before, core, after);
    assert f[1..|inner| + 1] == inner && f[|inner| + 2..] == rest;
    ParseParameter(f, |inner| + 1, auto, strtol);
    hide Before;
  }

  /** Text up to the next opening brace, or to the end, stands for itself. */
  lemma TextExactly(text: string, rest: string, auto: int, strtol: Strtol)
    requires text != [] && '{' !in text && (rest == [] || rest[0] == '{')
    ensures Parse(text + rest, auto, strtol) == Before([Text(text)], Parse(rest, auto, strtol))
  {
    var f := text + rest;
    assert f[0] == text[0];
    if rest == [] {
      assert f == text;
    } else {
      assert rest == ['{'] + rest[1..];
      FindIs(text, '{', rest[1..]);
    }
    assert f[..|text|] == text && f[|text|..] == rest;
    hide Find;
  }

  /** An opening brace that nothing closes is an error, wherever it stands. */
  lemma UnclosedIsError(text: string, rest: string, auto: int, strtol: Strtol)
    requires '{' !in text && '}' !in rest
    ensures Parse(text + ("{" + rest), auto, strtol) == None
  {
    var f := "{" + rest;
    assert f[0] == '{' && '}' !in f;
    assert Parse(f, auto, strtol) == None;
    if text == [] {
      assert text + f == f;
    } else {
      TextExactly(text, f, auto, strtol);
    }
  }

  /** A closing brace cannot be written as an opening one can: `{}}` is an empty parameter and then the brace, as text. */
  lemma ClosingBrace(strtol: Strtol)
    ensures Parse("{}}", 1, strtol) == Some([Number(1), Text("}")])
  {
    ParameterExactly("", "", "", "}", 1, strtol);
    TextExactly("}", "", 2, strtol);
    assert "{" + (("" + ("" + "")) + ("}" + "}")) == "{}}" && "}" + "" == "}";
    assert Parse("", 2, strtol) == Some([]);
    assert [Text("}")] + [] == [Text("}")] && [Number(1)] + [Text("}")] == [Number(1), Text("}")];
    hide Parse;
  }
}
