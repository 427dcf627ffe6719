/** Strings with expressions between backticks, as lang/tree-morph.c rewrites them: the rewritten call gives the pieces
    and the values in order. */
module Interpolation {
  import opened Options
  import opened Format

  /** The template and the expressions of a string; None for an unbalanced backtick. */
  function Morph(s: string): Option<(string, seq<string>)>
    decreases |s|
  {
    match Find(s, '`')
    case None => Some((s, []))
    case Some(i) =>
      var after := s[i + 1..];
      match Find(after, '`')
      case None => None
      case Some(j) =>
        match Morph(after[j + 1..])
        case None => None
        case Some((template, exprs)) => Some((s[..i] + ("{}" + template), [after[..j]] + exprs))
  }

  /** The loop of `morph`. */
  method MorphString(text: string) returns (r: Option<(string, seq<string>)>)
    ensures r == Morph(text)
  {
    hide Find, Morph;
    var sb, exprs, s := "", [], text;
    MorphedNothing(Morph(text));
    while true
      invariant Morph(text) == Morphed(sb, exprs, Morph(s))
      decreases |s|
    {
      MorphCases(s);
      var s1 := Find(s, '`');
      if s1.None? {
        break;
      }
      var after := s[s1.value + 1..];
      var s2 := Find(after, '`');
      if s2.None? {
        return None;
      }
      MorphedMore(sb, exprs, s[..s1.value], after[..s2.value], Morph(after[s2.value + 1..]));
      sb := sb + s[..s1.value] + "{}";
      exprs := exprs + [after[..s2.value]];
      s := after[s2.value + 1..];
    }
    assert exprs + [] == exprs;
    return Some((sb + s, exprs));
  }

  /** One round of Morph. */
  lemma MorphCases(s: string)
    ensures var s1 := Find(s, '`');
      if s1.None? then Morph(s) == Some((s, []))
      else
        var after := s[s1.value + 1..];
        var s2 := Find(after, '`');
        if s2.None? then Morph(s) == None
        else
          var rest := Morph(after[s2.value + 1..]);
          Morph(s) == if rest.None? then None
            else Some((s[..s1.value] + ("{}" + rest.value.0), [after[..s2.value]] + rest.value.1))
  {
    hide Find;
  }

  function Morphed(sb: string, exprs: seq<string>, rest: Option<(string, seq<string>)>): Option<(string, seq<string>)> {
    if rest.None? then None else Some((sb + rest.value.0, exprs + rest.value.1))
  }

  lemma MorphedNothing(rest: Option<(string, seq<string>)>)
    ensures Morphed("", [], rest) == rest
  {
    if rest.Some? {
      assert "" + rest.value.0 == rest.value.0 && [] + rest.value.1 == rest.value.1;
    }
  }

  lemma MorphedMore(sb: string, exprs: seq<string>, piece: string, expr: string, rest: Option<(string, seq<string>)>)
    ensures rest.None? ==> Morphed(sb + piece + "{}", exprs + [expr], rest) == None
    ensures rest.Some? ==>
      var more := Some((piece + ("{}" + rest.value.0), [expr] + rest.value.1));
      Morphed(sb, exprs, more) == Morphed(sb + piece + "{}", exprs + [expr], rest)
  {
    if rest.Some? {
      assert sb + (piece + ("{}" + rest.value.0)) == ((sb + piece) + "{}") + rest.value.0;
      assert exprs + ([expr] + rest.value.1) == (exprs + [expr]) + rest.value.1;
    }
  }

  // ----- what a programmer writes, and what should come out -----

  /** Pieces of text with something between each two. */
  function Woven(pieces: seq<string>, between: seq<string>): string
    requires |pieces| == |between| + 1
    decreases |pieces|
  {
    if between == [] then pieces[0] else pieces[0] + (between[0] + Woven(pieces[1..], between[1..]))
  }

  function Quoted(exprs: seq<string>): (r: seq<string>)
    ensures |r| == |exprs|
  {
    if exprs == [] then [] else ["`" + (exprs[0] + "`")] + Quoted(exprs[1..])
  }

  function Braces(n: nat): (r: seq<string>)
    ensures |r| == n
  {
    if n == 0 then [] else ["{}"] + Braces(n - 1)
  }

  ghost predicate Plain(s: string) {
    '`' !in s && '{' !in s
  }

  ghost predicate AllPlain(pieces: seq<string>) {
    forall i :: 0 <= i < |pieces| ==> Plain(pieces[i])
  }

  ghost predicate NoBackticks(exprs: seq<string>) {
    forall i :: 0 <= i < |exprs| ==> '`' !in exprs[i]
  }

  lemma FindFirst(a: string, c: char, b: string)
    requires c !in a
    ensures Find(a + ([c] + b), c) == Some(|a|)
    ensures Find(a, c) == None
  {
    var s := a + ([c] + b);
    assert s[|a|] == c;
    assert forall i :: 0 <= i < |a| ==> s[i] == a[i];
    assert forall k :: |a| < k <= |s| ==> s[..k][|a|] == c;
  }

  /** The template has braces for the expressions, which come out in order. */
  lemma {:induction false} MorphWoven(pieces: seq<string>, exprs: seq<string>)
    requires |pieces| == |exprs| + 1 && AllPlain(pieces) && NoBackticks(exprs)
    ensures Morph(Woven(pieces, Quoted(exprs))) == Some((Woven(pieces, Braces(|exprs|)), exprs))
    decreases |exprs|
  {
    if exprs == [] {
      FindFirst(pieces[0], '`', "");
    } else {
      var p, e := pieces[0], exprs[0];
      var rest := Woven(pieces[1..], Quoted(exprs[1..]));
      var s := p + ("`" + (e + ("`" + rest)));
      assert Quoted(exprs)[0] == "`" + (e + "`") && Quoted(exprs)[1..] == Quoted(exprs[1..]);
      assert Braces(|exprs|)[0] == "{}" && Braces(|exprs|)[1..] == Braces(|exprs[1..]|);
      assert Woven(pieces, Quoted(exprs)) == s by {
        assert ("`" + (e + "`")) + rest == "`" + (e + ("`" + rest));
      }
      assert exprs == [e] + exprs[1..];
      MorphWoven(pieces[1..], exprs[1..]);
      MorphStep(p, e, rest);
    }
  }

  lemma MorphStep(p: string, e: string, rest: string)
    requires '`' !in p && '`' !in e
    ensures var s := p + ("`" + (e + ("`" + rest)));
      var m := Morph(rest);
      Morph(s) == if m.None? then None else Some((p + ("{}" + m.value.0), [e] + m.value.1))
  {
    var s, after := p + ("`" + (e + ("`" + rest))), e + ("`" + rest);
    FindFirst(p, '`', after);
    FindFirst(e, '`', rest);
    hide Find;
    assert s[|p| + 1..] == after && s[..|p|] == p;
    assert after[|e| + 1..] == rest && after[..|e|] == e;
  }

  /** The elements of a template: each piece that is not empty, and the arguments in order from `auto`. */
  function Elements(pieces: seq<string>, auto: int): seq<Element>
    requires pieces != []
    decreases |pieces|
  {
    (if pieces[0] == "" then [] else [Text(pieces[0])])
      + (if |pieces| == 1 then [] else [Number(auto)] + Elements(pieces[1..], auto + 1))
  }

  lemma {:induction false} ParseWoven(pieces: seq<string>, auto: int, strtol: Strtol)
    requires pieces != [] && AllPlain(pieces)
    ensures Parse(Woven(pieces, Braces(|pieces| - 1)), auto, strtol) == Some(Elements(pieces, auto))
    decreases |pieces|
  {
    var p := pieces[0];
    assert Plain(p);
    if |pieces| == 1 {
      assert Parse("", auto, strtol) == Some([]);
      ParsePiece(p, "", auto, strtol);
      assert p + "" == p;
      assert [Text(p)] + [] == [Text(p)] && [] + [Text(p)] == [Text(p)];
    } else {
      var more := pieces[1..];
      var rest := Woven(more, Braces(|pieces| - 2));
      assert Braces(|pieces| - 1)[0] == "{}" && Braces(|pieces| - 1)[1..] == Braces(|pieces| - 2);
      assert Woven(pieces, Braces(|pieces| - 1)) == p + ("{}" + rest);
      assert Elements(pieces, auto) == (if p == "" then [] else [Text(p)]) + ([Number(auto)] + Elements(more, auto + 1));
      assert AllPlain(more);
      hide Parse, Woven, Elements, Braces, AllPlain;
      ParseWoven(more, auto + 1, strtol);
      ParsePiece(p, "{}" + rest, auto, strtol);
      ParseBraces(rest, auto, strtol);
    }
  }

  /** A piece without braces, before nothing or before a brace. */
  lemma ParsePiece(p: string, rest: string, auto: int, strtol: Strtol)
    requires '{' !in p && (rest == "" || rest[0] == '{')
    ensures var r := Parse(rest, auto, strtol);
      Parse(p + rest, auto, strtol) ==
        if r.None? then None else Some((if p == "" then [] else [Text(p)]) + r.value)
  {
    var s := p + rest;
    if p == "" {
      assert s == rest;
      if Parse(rest, auto, strtol).Some? {
        assert [] + Parse(rest, auto, strtol).value == Parse(rest, auto, strtol).value;
      }
    } else {
      if rest != "" {
        FindFirst(p, '{', rest[1..]);
        assert ['{'] + rest[1..] == rest;
      } else {
        FindFirst(p, '{', "");
        assert s == p;
      }
      hide Find, Param;
      assert s[0] == p[0] != '{';
      assert s[..|p|] == p && s[|p|..] == rest;
    }
  }

  lemma ParseBraces(rest: string, auto: int, strtol: Strtol)
    ensures var r := Parse(rest, auto + 1, strtol);
      Parse("{}" + rest, auto, strtol) == if r.None? then None else Some([Number(auto)] + r.value)
  {
    var s := "{}" + rest;
    FindFirst("{", '}', rest);
    assert s == "{" + (['}'] + rest);
    hide Find;
    assert s[1..1] == [] && s[2..] == rest;
  }

  /** The arguments from `auto` on, woven into the pieces. */
  lemma {:induction false} ShowElements(pieces: seq<string>, auto: nat, strings: seq<string>)
    requires pieces != [] && auto >= 1 && auto + |pieces| - 2 == |strings|
    ensures AllFound(Elements(pieces, auto), |strings|)
    ensures ShowAll(Elements(pieces, auto), strings) == Woven(pieces, strings[auto - 1..])
    decreases |pieces|
  {
    var p, from := pieces[0], strings[auto - 1..];
    var first := if p == "" then [] else [Text(p)];
    ShowPiece(p, strings);
    if |pieces| == 1 {
      assert Elements(pieces, auto) == first + [] == first;
      assert from == [];
    } else {
      var more, rest := pieces[1..], Elements(pieces[1..], auto + 1);
      assert Elements(pieces, auto) == first + ([Number(auto)] + rest);
      assert from[0] == strings[auto - 1] && from[1..] == strings[auto..];
      assert Woven(pieces, from) == p + (from[0] + Woven(more, from[1..]));
      hide Woven, Elements, ShowAll;
      ShowElements(more, auto + 1, strings);
      ShowNumber(auto, rest, strings);
      ShowAllAppend(first, [Number(auto)] + rest, strings);
    }
  }

  lemma ShowPiece(p: string, strings: seq<string>)
    ensures var first := if p == "" then [] else [Text(p)];
      AllFound(first, |strings|) && ShowAll(first, strings) == p
  {
    if p != "" {
      assert [Text(p)][1..] == [] && p + "" == p;
    }
  }

  lemma ShowNumber(auto: nat, rest: seq<Element>, strings: seq<string>)
    requires 1 <= auto <= |strings| && AllFound(rest, |strings|)
    ensures AllFound([Number(auto)] + rest, |strings|)
    ensures ShowAll([Number(auto)] + rest, strings) == strings[auto - 1] + ShowAll(rest, strings)
  {
    var e, all := Number(auto), [Number(auto)] + rest;
    assert all[0] == e && all[1..] == rest && FoundSecond(e, |strings|);
    forall i | 0 <= i < |all|
      ensures FoundSecond(all[i], |strings|)
    {
      assert i > 0 ==> all[i] == rest[i - 1];
    }
    hide FoundSecond;
  }

  /** A backtick string means its pieces and its values in order: the rewritten template, parsed and filled in with the
      values of the expressions, gives just that. */
  lemma InterpolationMeansWeaving(pieces: seq<string>, exprs: seq<string>, strings: seq<string>, strtol: Strtol)
    requires |pieces| == |exprs| + 1 && |strings| == |exprs| && AllPlain(pieces) && NoBackticks(exprs)
    ensures var m := Morph(Woven(pieces, Quoted(exprs)));
      && m.Some? && m.value.1 == exprs
      && var e := Parse(m.value.0, 1, strtol);
      && e.Some? && AllFound(e.value, |strings|) && ShowAll(e.value, strings) == Woven(pieces, strings)
  {
    MorphWoven(pieces, exprs);
    ParseWoven(pieces, 1, strtol);
    ShowElements(pieces, 1, strings);
    assert strings[0..] == strings;
  }

  // ----- which strings are refused -----

  /** A string is refused if and only if its backticks do not come in pairs. */
  lemma {:induction false} EvenTicks(s: string)
    ensures Morph(s).Some? <==> multiset(s)['`'] % 2 == 0
    decreases |s|
  {
    hide *;
    MorphCases(s);
    var i := Find(s, '`');
    if i.Some? {
      var after := s[i.value + 1..];
      OneTick(s, i.value);
      var j := Find(after, '`');
      if j.Some? {
        OneTick(after, j.value);
        EvenTicks(after[j.value + 1..]);
      } else {
        NoTicks(after);
      }
    } else {
      NoTicks(s);
    }
  }

  lemma OneTick(s: string, i: nat)
    requires i < |s| && s[i] == '`' && '`' !in s[..i]
    ensures multiset(s)['`'] == 1 + multiset(s[i + 1..])['`']
  {
    assert s == s[..i] + (['`'] + s[i + 1..]);
    NoTicks(s[..i]);
  }

  lemma NoTicks(s: string)
    requires '`' !in s
    ensures multiset(s)['`'] == 0
  {
  }
}
