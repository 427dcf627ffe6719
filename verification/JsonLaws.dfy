/** What JSON text means beyond the printer's own output: spaces between tokens do not matter, the characters each token is
    made of, and a key that comes twice. */
module JsonLaws {
  import opened Options
  import opened Json

  // ----- spaces -----

  /** Spaces, tabs and line ends before a token vanish, and nothing else does. */
  lemma {:induction false} SpacesVanish(ws: string, t: string)
    requires forall i :: 0 <= i < |ws| ==> ws[i] in " \t\n"
    ensures Lex(ws + t) == Lex(t)
    decreases |ws|
  {
    if ws == [] {
      assert ws + t == t;
    } else {
      assert (ws + t)[1..] == ws[1..] + t;
      SpacesVanish(ws[1..], t);
    }
  }

  /** A character that begins no token is an error. */
  lemma OthersAreInvalid(t: string)
    requires t != [] && t[0] !in " \t\n-0123456789\"{}[]:,tfn" && t[0] != '\0'
    ensures Lex(t) == LexError(InvalidToken)
  {
    hide LexNumber, LexString, IsSpace, IsDigit, IsSymbol;
    NoToken(t[0]);
    FirstOf("true", t);
    FirstOf("false", t);
    FirstOf("null", t);
  }

  lemma NoToken(c: char)
    requires c !in " \t\n-0123456789\"{}[]:,tfn"
    ensures !IsSpace(c) && !IsDigit(c) && !IsSymbol(c) && c != '-' && c != '"' && c != 't' && c != 'f' && c != 'n'
  {
  }

  lemma FirstOf(word: string, t: string)
    requires word != [] && t != []
    ensures word <= t ==> t[0] == word[0]
  {
  }

  /** So is a word that is none of the three. */
  lemma BrokenWordsAreInvalid(t: string)
    requires t != [] && t[0] in "tfn" && !("true" <= t) && !("false" <= t) && !("null" <= t)
    ensures Lex(t) == LexError(InvalidToken)
  {
    hide LexNumber, LexString;
  }

  datatype Lexeme = Tok(tok: Token) | Bad(error: Error)

  /** The tokens of a text, to its end or to the first error. */
  function Tokens(t: string): seq<Lexeme>
    decreases |t|
  {
    match Lex(t)
    case LexError(e) => [Bad(e)]
    case Lexed(tok, rest) => if tok == TEof then [Tok(TEof)] else [Tok(tok)] + Tokens(rest)
  }

  lemma SpacesAddNoTokens(ws: string, t: string)
    requires forall i :: 0 <= i < |ws| ==> ws[i] in " \t\n"
    ensures Tokens(ws + t) == Tokens(t)
  {
    SpacesVanish(ws, t);
    hide Lex;
  }

  /** Two texts whose first tokens are alike, and all that follow. */
  lemma FirstTokens(a: string, b: string)
    requires Tokens(a) == Tokens(b)
    ensures Lex(a).LexError? ==> Lex(b) == Lex(a)
    ensures Lex(a).Lexed? ==> Lex(b).Lexed? && Lex(b).tok == Lex(a).tok
    ensures Lex(a).Lexed? && Lex(a).tok != TEof ==> Tokens(Lex(a).rest) == Tokens(Lex(b).rest)
  {
    hide Lex;
    var x, y := Lex(a), Lex(b);
    assert Tokens(a)[0] == Tokens(b)[0];
    if x.Lexed? && x.tok != TEof {
      assert Tokens(a)[1..] == Tokens(x.rest) && Tokens(b)[1..] == Tokens(y.rest);
    }
  }

  /** The same value with the same tokens left, or the same error. */
  predicate Alike(r: Parsed, s: Parsed) {
    match (r, s)
    case (Parsed(v, rest), Parsed(w, other)) => v == w && Tokens(rest) == Tokens(other)
    case (Failed(e), Failed(f)) => e == f
    case _ => false
  }

  /** What a text parses to depends on its tokens alone. */
  lemma {:induction false} ParseByTokens(a: string, b: string)
    requires Tokens(a) == Tokens(b)
    ensures Alike(Parse(a), Parse(b))
    decreases |a|, 0
  {
    hide Lex, Tokens;
    FirstTokens(a, b);
    if Lex(a).Lexed? && Lex(a).tok in {TSym('['), TSym('{')} {
      var x, y := Lex(a).rest, Lex(b).rest;
      FirstTokens(x, y);
      if Lex(a).tok == TSym('[') {
        ItemsByTokens(x, y, []);
      } else {
        EntriesByTokens(x, y, []);
      }
    }
  }

  lemma {:induction false} ItemsByTokens(a: string, b: string, done: seq<Value>)
    requires Tokens(a) == Tokens(b)
    ensures Alike(ParseItems(a, done), ParseItems(b, done))
    decreases |a|, 1
  {
    hide Lex, Tokens, Parse;
    ParseByTokens(a, b);
    if Parse(a).Parsed? {
      var x, y := Parse(a).rest, Parse(b).rest;
      FirstTokens(x, y);
      if Lex(x).Lexed? && Lex(x).tok == TSym(',') {
        ItemsByTokens(Lex(x).rest, Lex(y).rest, done + [Parse(a).v]);
      }
    }
  }

  lemma {:induction false} EntriesByTokens(a: string, b: string, done: seq<Entry>)
    requires Tokens(a) == Tokens(b)
    ensures Alike(ParseEntries(a, done), ParseEntries(b, done))
    decreases |a|, 1
  {
    hide Lex, Tokens, Parse, Put;
    ParseByTokens(a, b);
    if Parse(a).Parsed? {
      var x, y := Parse(a).rest, Parse(b).rest;
      FirstTokens(x, y);
      if Lex(x).Lexed? && Lex(x).tok == TSym(':') {
        var c, d := Lex(x).rest, Lex(y).rest;
        ParseByTokens(c, d);
        if Parse(c).Parsed? && Parse(a).v.Atom? {
          var f, g := Parse(c).rest, Parse(d).rest;
          FirstTokens(f, g);
          if Lex(f).Lexed? && Lex(f).tok == TSym(',') {
            EntriesByTokens(Lex(f).rest, Lex(g).rest, Put(done, Entry(Parse(a).v.scalar, Parse(c).v)));
          }
        }
      }
    }
  }

  /** So a value in spaces is the value. */
  lemma SpacesDoNotMatter(ws: string, t: string)
    requires forall i :: 0 <= i < |ws| ==> ws[i] in " \t\n"
    ensures Alike(Parse(ws + t), Parse(t))
  {
    SpacesAddNoTokens(ws, t);
    ParseByTokens(ws + t, t);
  }

  // ----- a key that comes twice -----

  /** The value of a key; None where it is not there. */
  function Lookup(entries: seq<Entry>, key: Scalar): Option<Value> {
    if entries == [] then None
    else if entries[0].key == key then Some(entries[0].val)
    else Lookup(entries[1..], key)
  }

  function KeysOf(entries: seq<Entry>): (keys: seq<Scalar>)
    ensures |keys| == |entries|
  {
    if entries == [] then [] else [entries[0].key] + KeysOf(entries[1..])
  }

  /** The last value given to a key counts, no other key's value changes, and a key that is there keeps its place. */
  lemma {:induction false} PutExactly(entries: seq<Entry>, e: Entry, key: Scalar)
    ensures Lookup(Put(entries, e), key) == if key == e.key then Some(e.val) else Lookup(entries, key)
    ensures KeysOf(Put(entries, e))
      == if Lookup(entries, e.key).Some? then KeysOf(entries) else KeysOf(entries) + [e.key]
  {
    if entries != [] {
      PutExactly(entries[1..], e, key);
      if entries[0].key == e.key {
        var head := [Entry(entries[0].key, e.val)];
        assert (head + entries[1..])[1..] == entries[1..];
      } else {
        assert ([entries[0]] + Put(entries[1..], e))[1..] == Put(entries[1..], e);
      }
    } else {
      assert [e][1..] == [];
    }
  }

  // ----- words, strings and punctuation -----

  /** Each of these is one token, whatever follows, and is what the printer writes for it. */
  lemma WordsExactly(rest: string)
    ensures Lex("true" + rest) == Lexed(TTrue, rest) && Encode(Atom(True)) == "true"
    ensures Lex("false" + rest) == Lexed(TFalse, rest) && Encode(Atom(False)) == "false"
    ensures Lex("null" + rest) == Lexed(TNull, rest) && Encode(Atom(Null)) == "null"
  {
    var t, f, n := "true" + rest, "false" + rest, "null" + rest;
    assert t[0] == 't' && f[0] == 'f' && n[0] == 'n';
    assert t[4..] == rest && f[5..] == rest && n[4..] == rest;
  }

  /** A string is what stands between two quotes. */
  lemma StringExactly(text: string, rest: string)
    requires '"' !in text
    ensures Lex(['"'] + (text + (['"'] + rest))) == Lexed(TStr(text), rest)
    ensures Encode(Atom(Str(text))) == ['"'] + (text + ['"'])
  {
    var t := ['"'] + (text + (['"'] + rest));
    assert t[0] == '"' && t[1..] == text + (['"'] + rest);
    QuoteAfter(text, rest);
    assert t[1..1 + |text|] == text && t[|text| + 2..] == rest;
    hide NextQuote;
  }

  lemma {:induction false} QuoteAfter(text: string, rest: string)
    requires '"' !in text
    ensures NextQuote(text + (['"'] + rest)) == Some(|text|)
  {
    var t := text + (['"'] + rest);
    if text == [] {
      assert t[0] == '"';
    } else {
      assert t[0] == text[0] && t[1..] == text[1..] + (['"'] + rest);
      QuoteAfter(text[1..], rest);
    }
  }

  /** How arrays are written. */
  lemma ArraysExactly(v: Value, more: seq<Value>)
    requires more != []
    ensures EncodeItems([v]) == Encode(v) && EncodeItems([v] + more) == Encode(v) + ("," + EncodeItems(more))
    ensures Encode(Array([])) == "[]" && Encode(Array(more)) == "[" + (EncodeItems(more) + "]")
  {
    assert ([v] + more)[1..] == more;
    hide EncodeScalar, EncodeEntries;
  }

  /** How maps are written. */
  lemma MapsExactly(k: Scalar, v: Value, more: seq<Entry>)
    requires more != []
    ensures EncodeEntries([Entry(k, v)]) == EncodeScalar(k) + (":" + Encode(v))
    ensures EncodeEntries([Entry(k, v)] + more) == (EncodeScalar(k) + (":" + Encode(v))) + ("," + EncodeEntries(more))
    ensures Encode(Map([])) == "{}" && Encode(Map(more)) == "{" + (EncodeEntries(more) + "}")
  {
    assert ([Entry(k, v)] + more)[1..] == more;
    hide EncodeScalar, EncodeItems;
  }

  /** Brackets, braces, commas and colons are tokens by themselves. */
  lemma SymbolsExactly(c: char, rest: string)
    requires c in "{}[]:,"
    ensures Lex([c] + rest) == Lexed(TSym(c), rest)
  {
    assert ([c] + rest)[1..] == rest;
  }

  // ----- what a number is -----

  predicate NumberPart(s: string) {
    forall i :: 0 <= i < |s| ==> s[i] in "0123456789+-Ee."
  }

  lemma {:induction false} NumberEnds(body: string, rest: string)
    requires NumberPart(body) && (rest == [] || rest[0] !in "0123456789+-Ee.")
    ensures AfterNumber(body + rest) == rest
    ensures MarksDouble(body + rest) <==> exists i :: 0 <= i < |body| && body[i] in "Ee."
    decreases |body|
  {
    var t := body + rest;
    if body == [] {
      assert t == rest;
    } else {
      assert t[0] == body[0] && t[1..] == body[1..] + rest;
      NumberEnds(body[1..], rest);
      if i :| 1 <= i < |body| && body[i] in "Ee." {
        assert body[1..][i - 1] == body[i];
      }
    }
  }

  /** A digit or a minus sign begins a number, which goes on as far as there are digits, signs, points and exponent letters. With
      a point or an exponent letter after the first character it is a double. */
  lemma NumberExactly(first: char, body: string, rest: string)
    requires first in "-0123456789" && NumberPart(body) && (rest == [] || rest[0] !in "0123456789+-Ee.")
    ensures var t := [first] + (body + rest);
      Lex(t) ==
        if exists i :: 0 <= i < |body| && body[i] in "Ee." then Lexed(TDouble, rest)
        else if FitsInt(Atoi(t)) then Lexed(TInt(Atoi(t)), rest)
        else LexError(IntOverflow)
  {
    var t := [first] + (body + rest);
    hide *;
    assert t[0] == first && t[1..] == body + rest;
    NumberEnds(body, rest);
    NumberToken(t);
  }

  lemma NumberToken(t: string)
    requires t != [] && t[0] in "-0123456789"
    ensures Lex(t) ==
      if MarksDouble(t[1..]) then Lexed(TDouble, AfterNumber(t[1..]))
      else if FitsInt(Atoi(t)) then Lexed(TInt(Atoi(t)), AfterNumber(t[1..]))
      else LexError(IntOverflow)
  {
    hide LexString, IsSymbol, MarksDouble, AfterNumber, Atoi, FitsInt;
  }
}
