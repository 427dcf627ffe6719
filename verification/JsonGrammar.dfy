/** The texts that the JSON parser accepts: those whose tokens are a value's, and no others. */
module JsonGrammar {
  import opened Json
  import opened JsonLaws

  // ----- the grammar -----

  function Sym(c: char): seq<Lexeme> {
    [Tok(TSym(c))]
  }

  function ScalarTokens(s: Scalar): (ts: seq<Lexeme>)
    ensures |ts| == 1
  {
    match s
    case Null => [Tok(TNull)]
    case True => [Tok(TTrue)]
    case False => [Tok(TFalse)]
    case Int(i) => [Tok(TInt(i))]
    case Str(text) => [Tok(TStr(text))]
  }

  /** A value as it is written; a map may give a key more than once. */
  function TokensOf(v: Value): seq<Lexeme>
    decreases v
  {
    match v
    case Atom(s) => ScalarTokens(s)
    case Array(items) => Sym('[') + (ItemTokens(items) + Sym(']'))
    case Map(entries) => Sym('{') + (EntryTokens(entries) + Sym('}'))
  }

  /** Items with commas between them. */
  function ItemTokens(items: seq<Value>): seq<Lexeme>
    decreases items
  {
    if items == [] then []
    else if |items| == 1 then TokensOf(items[0])
    else TokensOf(items[0]) + (Sym(',') + ItemTokens(items[1..]))
  }

  function EntryTokens(entries: seq<Entry>): seq<Lexeme>
    decreases entries
  {
    if entries == [] then []
    else if |entries| == 1 then OneEntry(entries[0])
    else OneEntry(entries[0]) + (Sym(',') + EntryTokens(entries[1..]))
  }

  function OneEntry(e: Entry): seq<Lexeme>
    decreases e
  {
    ScalarTokens(e.key) + (Sym(':') + TokensOf(e.val))
  }

  /** What a value that is written so stands for: in a map, the last entry of a key counts. */
  function Meant(v: Value): Value
    decreases v
  {
    match v
    case Atom(_) => v
    case Array(items) => Array(MeantItems(items))
    case Map(entries) => Map(MeantEntries([], entries))
  }

  function MeantItems(items: seq<Value>): seq<Value>
    decreases items
  {
    if items == [] then [] else [Meant(items[0])] + MeantItems(items[1..])
  }

  /** The entries `done` and then these. */
  function MeantEntries(done: seq<Entry>, entries: seq<Entry>): seq<Entry>
    decreases entries
  {
    if entries == [] then done
    else MeantEntries(Put(done, MeantEntry(entries[0])), entries[1..])
  }

  function MeantEntry(e: Entry): Entry
    decreases e
  {
    Entry(e.key, Meant(e.val))
  }

  // ----- reading tokens -----

  /** What a text's first token is shows in its tokens. */
  lemma FirstToken(t: string)
    ensures Lex(t).Lexed? && Lex(t).tok != TEof ==> Tokens(t) == [Tok(Lex(t).tok)] + Tokens(Lex(t).rest)
    ensures Lex(t).Lexed? && Lex(t).tok == TEof ==> Tokens(t) == [Tok(TEof)]
    ensures Lex(t).LexError? ==> Tokens(t) == [Bad(Lex(t).error)]
  {
    hide Lex;
  }

  lemma ReadToken(t: string, tok: Token, s: seq<Lexeme>)
    requires Tokens(t) == [Tok(tok)] + s && tok != TEof
    ensures Lex(t).Lexed? && Lex(t).tok == tok && Tokens(Lex(t).rest) == s
  {
    FirstToken(t);
    hide Lex, Tokens;
    var all := [Tok(tok)] + s;
    assert all[0] == Tok(tok) && all[1..] == s;
    if Lex(t).Lexed? && Lex(t).tok != TEof {
      var rest := [Tok(Lex(t).tok)] + Tokens(Lex(t).rest);
      assert rest[0] == Tok(Lex(t).tok) && rest[1..] == Tokens(Lex(t).rest);
    }
  }

  lemma Assoc(a: seq<Lexeme>, b: seq<Lexeme>, c: seq<Lexeme>)
    ensures (a + b) + c == a + (b + c)
  {
  }

  // ----- one step of each -----

  lemma UnfoldArray(items: seq<Value>)
    ensures TokensOf(Array(items)) == Sym('[') + (ItemTokens(items) + Sym(']'))
    ensures Meant(Array(items)) == Array(MeantItems(items))
    ensures ItemTokens([]) == [] && MeantItems([]) == []
  {
  }

  lemma UnfoldMap(entries: seq<Entry>)
    ensures TokensOf(Map(entries)) == Sym('{') + (EntryTokens(entries) + Sym('}'))
    ensures Meant(Map(entries)) == Map(MeantEntries([], entries))
    ensures EntryTokens([]) == [] && MeantEntries([], []) == []
  {
  }

  lemma UnfoldItems(v: Value, more: seq<Value>)
    ensures ItemTokens([v]) == TokensOf(v) && MeantItems([v]) == [Meant(v)]
    ensures more != [] ==> ItemTokens([v] + more) == TokensOf(v) + (Sym(',') + ItemTokens(more))
    ensures MeantItems([v] + more) == [Meant(v)] + MeantItems(more)
  {
    assert [v][1..] == [] && ([v] + more)[1..] == more;
    assert MeantItems([v]) == [Meant(v)] + MeantItems([]);
  }

  lemma UnfoldEntries(e: Entry, more: seq<Entry>, done: seq<Entry>)
    ensures EntryTokens([e]) == ScalarTokens(e.key) + (Sym(':') + TokensOf(e.val))
    ensures more != [] ==>
      EntryTokens([e] + more) == (ScalarTokens(e.key) + (Sym(':') + TokensOf(e.val))) + (Sym(',') + EntryTokens(more))
    ensures MeantEntries(done, [e]) == Put(done, Entry(e.key, Meant(e.val)))
    ensures MeantEntries(done, [e] + more) == MeantEntries(Put(done, Entry(e.key, Meant(e.val))), more)
  {
    assert [e][1..] == [] && ([e] + more)[1..] == more;
    hide TokensOf, Meant, Put, ScalarTokens;
  }

  lemma AtomOnly(raw: Value)
    requires Meant(raw).Atom?
    ensures raw == Meant(raw) && TokensOf(raw) == ScalarTokens(raw.scalar)
  {
  }

  /** What the parser does with one token, scalar or opening. */
  lemma UnfoldParse(t: string)
    requires Lex(t).Lexed?
    ensures var tok, rest := Lex(t).tok, Lex(t).rest;
      && (!tok.TSym? && Parse(t).Parsed? ==>
            Parse(t).v.Atom? && Parse(t).rest == rest && ScalarTokens(Parse(t).v.scalar) == [Tok(tok)] && tok != TEof)
      && (tok == TSym('[') && Lex(rest).Lexed? ==>
            Parse(t) == if Lex(rest).tok == TSym(']') then Parsed(Array([]), Lex(rest).rest) else ParseItems(rest, []))
      && (tok == TSym('{') && Lex(rest).Lexed? ==>
            Parse(t) == if Lex(rest).tok == TSym('}') then Parsed(Map([]), Lex(rest).rest) else ParseEntries(rest, []))
      && (tok.TSym? && Parse(t).Parsed? ==> tok.c in "[{" && Lex(rest).Lexed?)
  {
    hide Lex, ParseItems, ParseEntries;
  }

  // ----- what is accepted is in the grammar -----

  lemma {:induction false} Sound(t: string) returns (raw: Value)
    requires Parse(t).Parsed?
    ensures Tokens(t) == TokensOf(raw) + Tokens(Parse(t).rest) && Meant(raw) == Parse(t).v
    decreases |t|, 0
  {
    assert Lex(t).Lexed?;
    UnfoldParse(t);
    FirstToken(t);
    hide Lex, Tokens, Parse, ParseItems, ParseEntries, TokensOf, Meant, ItemTokens, EntryTokens, MeantItems, MeantEntries;
    var tok, rest, end := Lex(t).tok, Lex(t).rest, Tokens(Parse(t).rest);
    if tok == TSym('[') {
      FirstToken(rest);
      var items: seq<Value> := [];
      UnfoldArray(items);
      if Lex(rest).tok != TSym(']') {
        items := SoundItems(rest, []);
        UnfoldArray(items);
        assert [] + MeantItems(items) == MeantItems(items);
      } else {
        assert [] + (Sym(']') + end) == Sym(']') + end;
      }
      raw := Array(items);
      Assoc(ItemTokens(items), Sym(']'), end);
      Assoc(Sym('['), ItemTokens(items) + Sym(']'), end);
    } else if tok == TSym('{') {
      FirstToken(rest);
      var entries: seq<Entry> := [];
      UnfoldMap(entries);
      if Lex(rest).tok != TSym('}') {
        entries := SoundEntries(rest, []);
        UnfoldMap(entries);
      } else {
        assert [] + (Sym('}') + end) == Sym('}') + end;
      }
      raw := Map(entries);
      Assoc(EntryTokens(entries), Sym('}'), end);
      Assoc(Sym('{'), EntryTokens(entries) + Sym('}'), end);
    } else {
      raw := Parse(t).v;
      AtomIs(raw);
    }
  }

  lemma AtomIs(raw: Value)
    requires raw.Atom?
    ensures Meant(raw) == raw && TokensOf(raw) == ScalarTokens(raw.scalar)
  {
  }

  lemma {:induction false} SoundItems(t: string, done: seq<Value>) returns (items: seq<Value>)
    requires ParseItems(t, done).Parsed?
    ensures var r := ParseItems(t, done);
      && items != [] && r.v == Array(done + MeantItems(items))
      && Tokens(t) == ItemTokens(items) + (Sym(']') + Tokens(r.rest))
    decreases |t|, 1
  {
    hide Lex, Tokens, Parse, TokensOf, Meant, ItemTokens, EntryTokens, MeantItems, MeantEntries;
    var end := Tokens(ParseItems(t, done).rest);
    var raw := Sound(t);
    var rest := Parse(t).rest;
    FirstToken(rest);
    var next := Lex(rest);
    if next.tok == TSym(']') {
      items := [raw];
      UnfoldItems(raw, []);
    } else {
      var more := SoundItems(next.rest, done + [Parse(t).v]);
      items := [raw] + more;
      UnfoldItems(raw, more);
      hide ParseItems;
      assert (done + [Parse(t).v]) + MeantItems(more) == done + ([Parse(t).v] + MeantItems(more));
      Assoc(Sym(','), ItemTokens(more), Sym(']') + end);
      Assoc(TokensOf(raw), Sym(',') + ItemTokens(more), Sym(']') + end);
    }
  }

  lemma {:induction false} SoundEntries(t: string, done: seq<Entry>) returns (entries: seq<Entry>)
    requires ParseEntries(t, done).Parsed?
    ensures var r := ParseEntries(t, done);
      && entries != [] && r.v == Map(MeantEntries(done, entries))
      && Tokens(t) == EntryTokens(entries) + (Sym('}') + Tokens(r.rest))
    decreases |t|, 1
  {
    hide Lex, Tokens, Parse, TokensOf, Meant, ItemTokens, EntryTokens, MeantItems, MeantEntries, Put;
    var end := Tokens(ParseEntries(t, done).rest);
    var key := Sound(t);
    AtomOnly(key);
    var rest := Parse(t).rest;
    FirstToken(rest);
    var colon := Lex(rest);
    var val := Sound(colon.rest);
    var after := Parse(colon.rest).rest;
    FirstToken(after);
    var next := Lex(after);
    var e := Entry(key.scalar, val);
    var head := ScalarTokens(e.key) + (Sym(':') + TokensOf(val));
    assert Tokens(t) == head + Tokens(after) by {
      hide ParseEntries;
      Assoc(Sym(':'), TokensOf(val), Tokens(after));
      Assoc(ScalarTokens(e.key), Sym(':') + TokensOf(val), Tokens(after));
    }
    var put := Put(done, Entry(key.scalar, Meant(val)));
    if next.tok == TSym('}') {
      entries := [e];
      UnfoldEntries(e, [], done);
    } else {
      var more := SoundEntries(next.rest, put);
      entries := [e] + more;
      UnfoldEntries(e, more, done);
      hide ParseEntries;
      Assoc(Sym(','), EntryTokens(more), Sym('}') + end);
      Assoc(head, Sym(',') + EntryTokens(more), Sym('}') + end);
    }
  }

  // ----- what is in the grammar is accepted -----

  /** A value's tokens begin with one that can begin a value. */
  lemma FirstOfValue(v: Value)
    ensures TokensOf(v) != [] && TokensOf(v)[0].Tok?
    ensures TokensOf(v)[0].tok !in {TEof, TSym(']'), TSym('}'), TSym(','), TSym(':')}
  {
  }

  lemma FirstOfItems(items: seq<Value>, entries: seq<Entry>)
    ensures items != [] ==> ItemTokens(items) != [] && ItemTokens(items)[0] == TokensOf(items[0])[0]
    ensures entries != [] ==> EntryTokens(entries) != [] && EntryTokens(entries)[0] == ScalarTokens(entries[0].key)[0]
  {
    if items != [] {
      FirstOfValue(items[0]);
    }
    hide TokensOf;
  }

  /** The first token of a text is not a closing one where a value begins. */
  lemma NotClosing(t: string, first: Lexeme)
    requires Tokens(t) != [] && Tokens(t)[0] == first && first.Tok?
    requires first.tok !in {TEof, TSym(']'), TSym('}'), TSym(','), TSym(':')}
    ensures Lex(t).Lexed? && Lex(t).tok == first.tok
  {
    FirstToken(t);
  }

  lemma {:induction false} Completeness(t: string, raw: Value, s: seq<Lexeme>)
    requires Tokens(t) == TokensOf(raw) + s
    ensures var r := Parse(t); r.Parsed? && r.v == Meant(raw) && Tokens(r.rest) == s
    decreases raw
  {
    hide Lex, Tokens, Parse, ParseItems, ParseEntries, TokensOf, Meant, ItemTokens, EntryTokens, MeantItems, MeantEntries;
    match raw
    case Atom(scalar) =>
      AtomIs(raw);
      ReadToken(t, ScalarTokens(scalar)[0].tok, s);
      ParseScalarToken(t, scalar);
    case Array(items) =>
      UnfoldArray(items);
      Assoc(Sym('['), ItemTokens(items) + Sym(']'), s);
      Assoc(ItemTokens(items), Sym(']'), s);
      ReadToken(t, TSym('['), ItemTokens(items) + (Sym(']') + s));
      var rest := Lex(t).rest;
      if items == [] {
        assert [] + (Sym(']') + s) == Sym(']') + s;
        ReadToken(rest, TSym(']'), s);
      } else {
        FirstOfItems(items, []);
        FirstOfValue(items[0]);
        NotClosing(rest, ItemTokens(items)[0]);
        CompleteItems(rest, items, [], s);
        assert [] + MeantItems(items) == MeantItems(items);
      }
      UnfoldParse(t);
    case Map(entries) =>
      UnfoldMap(entries);
      Assoc(Sym('{'), EntryTokens(entries) + Sym('}'), s);
      Assoc(EntryTokens(entries), Sym('}'), s);
      ReadToken(t, TSym('{'), EntryTokens(entries) + (Sym('}') + s));
      var rest := Lex(t).rest;
      if entries == [] {
        assert [] + (Sym('}') + s) == Sym('}') + s;
        ReadToken(rest, TSym('}'), s);
      } else {
        FirstOfItems([], entries);
        NotClosing(rest, EntryTokens(entries)[0]);
        CompleteEntries(rest, entries, [], s);
      }
      UnfoldParse(t);
  }

  lemma ParseScalarToken(t: string, scalar: Scalar)
    requires Lex(t).Lexed? && [Tok(Lex(t).tok)] == ScalarTokens(scalar)
    ensures Parse(t) == Parsed(Atom(scalar), Lex(t).rest)
  {
    hide Lex, ParseItems, ParseEntries;
    assert [Tok(Lex(t).tok)][0] == ScalarTokens(scalar)[0];
  }

  lemma {:induction false} CompleteItems(t: string, items: seq<Value>, done: seq<Value>, s: seq<Lexeme>)
    requires items != [] && Tokens(t) == ItemTokens(items) + (Sym(']') + s)
    ensures var r := ParseItems(t, done);
      r.Parsed? && r.v == Array(done + MeantItems(items)) && Tokens(r.rest) == s
    decreases items
  {
    hide Lex, Tokens, Parse, TokensOf, Meant, ItemTokens, EntryTokens, MeantItems, MeantEntries;
    var v, more := items[0], items[1..];
    assert items == [v] + more;
    UnfoldItems(v, more);
    if more == [] {
      assert items == [v];
      Completeness(t, v, Sym(']') + s);
      ReadToken(Parse(t).rest, TSym(']'), s);
    } else {
      var tail := ItemTokens(more) + (Sym(']') + s);
      Assoc(Sym(','), ItemTokens(more), Sym(']') + s);
      Assoc(TokensOf(v), Sym(',') + ItemTokens(more), Sym(']') + s);
      Completeness(t, v, Sym(',') + tail);
      ReadToken(Parse(t).rest, TSym(','), tail);
      CompleteItems(Lex(Parse(t).rest).rest, more, done + [Meant(v)], s);
      assert (done + [Meant(v)]) + MeantItems(more) == done + ([Meant(v)] + MeantItems(more));
    }
  }

  lemma {:induction false} CompleteEntries(t: string, entries: seq<Entry>, done: seq<Entry>, s: seq<Lexeme>)
    requires entries != [] && Tokens(t) == EntryTokens(entries) + (Sym('}') + s)
    ensures var r := ParseEntries(t, done);
      r.Parsed? && r.v == Map(MeantEntries(done, entries)) && Tokens(r.rest) == s
    decreases entries
  {
    hide Lex, Tokens, Parse, TokensOf, Meant, ItemTokens, EntryTokens, MeantItems, MeantEntries, Put;
    var e, more := entries[0], entries[1..];
    assert entries == [e] + more;
    UnfoldEntries(e, more, done);
    var put := Put(done, Entry(e.key, Meant(e.val)));
    var end := Sym('}') + s;
    var tail := if more == [] then end else Sym(',') + (EntryTokens(more) + end);
    var head := ScalarTokens(e.key) + (Sym(':') + TokensOf(e.val));
    assert Tokens(t) == ScalarTokens(e.key) + (Sym(':') + (TokensOf(e.val) + tail)) by {
      hide ParseEntries;
      if more == [] {
        assert entries == [e];
      } else {
        Assoc(Sym(','), EntryTokens(more), end);
        Assoc(head, Sym(',') + EntryTokens(more), end);
      }
      Assoc(ScalarTokens(e.key), Sym(':') + TokensOf(e.val), tail);
      Assoc(Sym(':'), TokensOf(e.val), tail);
    }
    ReadToken(t, ScalarTokens(e.key)[0].tok, Sym(':') + (TokensOf(e.val) + tail));
    ParseScalarToken(t, e.key);
    var afterKey := Lex(t).rest;
    ReadToken(afterKey, TSym(':'), TokensOf(e.val) + tail);
    var afterColon := Lex(afterKey).rest;
    CompleteEntry(afterColon, e, tail);
    var afterVal := Parse(afterColon).rest;
    if more == [] {
      assert entries == [e];
      ReadToken(afterVal, TSym('}'), s);
    } else {
      ReadToken(afterVal, TSym(','), EntryTokens(more) + end);
      CompleteEntries(Lex(afterVal).rest, more, put, s);
    }
  }

  lemma {:induction false} CompleteEntry(t: string, e: Entry, s: seq<Lexeme>)
    requires Tokens(t) == TokensOf(e.val) + s
    ensures var r := Parse(t); r.Parsed? && r.v == Meant(e.val) && Tokens(r.rest) == s
    decreases e
  {
    Completeness(t, e.val, s);
  }

  /** A text is parsed to a value, with certain tokens left, if and only if its tokens are those of a value that means it and
      then the ones left: no text outside the grammar is accepted, and none inside refused. */
  lemma ParseExactly(t: string, v: Value, s: seq<Lexeme>)
    ensures (Parse(t).Parsed? && Parse(t).v == v && Tokens(Parse(t).rest) == s)
      <==> exists raw: Value :: Tokens(t) == TokensOf(raw) + s && Meant(raw) == v
  {
    hide Lex, Tokens, Parse, TokensOf, Meant;
    if Parse(t).Parsed? && Parse(t).v == v && Tokens(Parse(t).rest) == s {
      var raw := Sound(t);
    }
    if raw: Value :| Tokens(t) == TokensOf(raw) + s && Meant(raw) == v {
      Completeness(t, raw, s);
    }
  }
}
