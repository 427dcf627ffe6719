/** What the printer writes, the parser reads back; and exactly for which values. */
module JsonRoundTrip {
  import opened Options
  import opened Json

  predicate CleanScalar(s: Scalar) {
    match s
    case Int(i) => FitsInt(i)
    case Str(text) => '"' !in text
    case _ => true
  }

  ghost predicate DistinctKeys(entries: seq<Entry>) {
    forall i, j :: 0 <= i < j < |entries| ==> entries[i].key != entries[j].key
  }

  /** Integers fit C's int, strings have no quote, and a map has one entry a key. */
  ghost predicate Clean(v: Value)
    decreases v
  {
    match v
    case Atom(s) => CleanScalar(s)
    case Array(items) => forall i :: 0 <= i < |items| ==> Clean(items[i])
    case Map(entries) => CleanEntries(entries)
  }

  ghost predicate CleanEntries(entries: seq<Entry>)
    decreases entries
  {
    DistinctKeys(entries) && forall i :: 0 <= i < |entries| ==> CleanEntry(entries[i])
  }

  ghost predicate CleanEntry(e: Entry)
    decreases e
  {
    CleanScalar(e.key) && Clean(e.val)
  }

  /** The text does not go on with a character of a number. */
  predicate Ends(post: string) {
    post == [] || !InNumber(post[0])
  }

  // ----- numbers -----

  lemma {:induction false} DigitsRead(n: nat, rest: string)
    ensures ReadDigits(Digits(n) + rest, 0) == ReadDigits(rest, n)
    ensures AfterNumber(Digits(n) + rest) == AfterNumber(rest)
    ensures MarksDouble(Digits(n) + rest) == MarksDouble(rest)
    ensures Digits(n) != [] && IsDigit(Digits(n)[0])
    decreases n
  {
    if n < 10 {
      OneDigit(n, rest, 0);
    } else {
      var d := n % 10;
      DigitsRead(n / 10, [Digit(d)] + rest);
      OneDigit(d, rest, n / 10);
      assert Digits(n) + rest == Digits(n / 10) + ([Digit(d)] + rest);
      assert Digits(n)[0] == Digits(n / 10)[0];
    }
  }

  lemma OneDigit(d: nat, rest: string, acc: nat)
    requires d < 10
    ensures ReadDigits([Digit(d)] + rest, acc) == ReadDigits(rest, 10 * acc + d)
    ensures AfterNumber([Digit(d)] + rest) == AfterNumber(rest)
    ensures MarksDouble([Digit(d)] + rest) == MarksDouble(rest)
  {
    assert ([Digit(d)] + rest)[1..] == rest;
    assert Digit(d) as int - '0' as int == d;
  }

  lemma IntBack(i: int, post: string)
    requires FitsInt(i) && Ends(post)
    ensures Lex(IntToS(i) + post) == Lexed(TInt(i), post)
  {
    var t := IntToS(i) + post;
    var n: nat := if i < 0 then -i else i;
    DigitsRead(n, post);
    if i < 0 {
      assert t[1..] == Digits(n) + post;
    } else {
      assert t == Digits(n) + post;
      assert AfterNumber(t) == AfterNumber(t[1..]) && MarksDouble(t) == MarksDouble(t[1..]);
    }
  }

  // ----- strings and the other scalars -----

  lemma StrBack(s: string, post: string)
    requires '"' !in s
    ensures Lex("\"" + (s + "\"") + post) == Lexed(TStr(s), post)
  {
    var t := "\"" + (s + "\"") + post;
    var u := t[1..];
    assert u == s + ("\"" + post);
    assert u[|s|] == '"' && forall k :: 0 <= k < |s| ==> u[k] == s[k];
    var q := NextQuote(u);
    assert q == Some(|s|);
    assert t[1..1 + |s|] == s && t[|s| + 2..] == post;
  }

  lemma WordBack(post: string)
    ensures Lex("null" + post) == Lexed(TNull, post)
    ensures Lex("true" + post) == Lexed(TTrue, post)
    ensures Lex("false" + post) == Lexed(TFalse, post)
  {
    assert ("null" + post)[4..] == post && ("true" + post)[4..] == post && ("false" + post)[5..] == post;
  }

  function ScalarToken(s: Scalar): Token {
    match s
    case Null => TNull
    case True => TTrue
    case False => TFalse
    case Int(i) => TInt(i)
    case Str(text) => TStr(text)
  }

  lemma ScalarBack(s: Scalar, post: string)
    requires CleanScalar(s) && (s.Int? ==> Ends(post))
    ensures Lex(EncodeScalar(s) + post) == Lexed(ScalarToken(s), post)
  {
    hide Lex;
    match s
    case Int(i) => IntBack(i, post);
    case Str(text) => StrBack(text, post);
    case _ => WordBack(post);
  }

  lemma SymbolBack(c: char, post: string)
    requires IsSymbol(c)
    ensures Lex([c] + post) == Lexed(TSym(c), post)
  {
    assert ([c] + post)[1..] == post;
  }

  // ----- values -----

  lemma ParseScalar(s: Scalar, post: string)
    requires CleanScalar(s) && (s.Int? ==> Ends(post))
    ensures Parse(EncodeScalar(s) + post) == Parsed(Atom(s), post)
  {
    ScalarBack(s, post);
    hide Lex, EncodeScalar;
  }

  /** The first token of a printed value closes nothing. */
  lemma Opens(v: Value, post: string)
    requires Clean(v) && Ends(post)
    ensures var l := Lex(Encode(v) + post); l.Lexed? && l.tok != TSym(']') && l.tok != TSym('}')
  {
    match v
    case Atom(s) => ScalarBack(s, post);
    case Array(items) =>
      ArrayText(items, post);
      hide *;
      SymbolBack('[', EncodeItems(items) + ("]" + post));
    case Map(entries) =>
      MapText(entries, post);
      hide *;
      SymbolBack('{', EncodeEntries(entries) + ("}" + post));
  }

  lemma ArrayText(items: seq<Value>, post: string)
    ensures Encode(Array(items)) + post == ['['] + (EncodeItems(items) + ("]" + post)) && IsSymbol('[')
  {
    var inner := EncodeItems(items);
    assert Encode(Array(items)) == ['['] + (inner + "]");
    hide *;
    assert (['['] + (inner + "]")) + post == ['['] + (inner + ("]" + post));
  }

  lemma MapText(entries: seq<Entry>, post: string)
    ensures Encode(Map(entries)) + post == ['{'] + (EncodeEntries(entries) + ("}" + post)) && IsSymbol('{')
  {
    var inner := EncodeEntries(entries);
    assert Encode(Map(entries)) == ['{'] + (inner + "}");
    hide *;
    assert (['{'] + (inner + "}")) + post == ['{'] + (inner + ("}" + post));
  }

  lemma {:induction false} ValueBack(v: Value, post: string)
    requires Clean(v) && Ends(post)
    ensures Parse(Encode(v) + post) == Parsed(v, post)
    decreases v, 0
  {
    match v
    case Atom(s) => ParseScalar(s, post);
    case Array(items) => ArrayBack(items, post);
    case Map(entries) => MapBack(entries, post);
  }

  lemma {:induction false} ArrayBack(items: seq<Value>, post: string)
    requires Clean(Array(items))
    ensures Parse(Encode(Array(items)) + post) == Parsed(Array(items), post)
    decreases items, 1
  {
    hide Lex, Encode, Clean;
    var inner := EncodeItems(items) + ("]" + post);
    assert forall i :: 0 <= i < |items| ==> Clean(items[i]) by { CleanItems(items); }
    ArrayText(items, post);
    SymbolBack('[', inner);
    SymbolBack(']', post);
    if items == [] {
      assert inner == [']'] + post;
    } else {
      ItemsBack(items, [], post);
      FirstItemOpens(items, "]" + post);
      assert [] + items == items;
    }
    hide ParseItems, EncodeItems;
  }

  lemma CleanItems(items: seq<Value>)
    requires Clean(Array(items))
    ensures forall i :: 0 <= i < |items| ==> Clean(items[i])
  {
  }

  lemma FirstItemOpens(items: seq<Value>, post: string)
    requires items != [] && Clean(items[0]) && Ends(post)
    ensures var l := Lex(EncodeItems(items) + post); l.Lexed? && l.tok != TSym(']')
  {
    hide Lex, Encode, Clean;
    if |items| == 1 {
      Opens(items[0], post);
    } else {
      var more := "," + EncodeItems(items[1..]) + post;
      Opens(items[0], more);
      assert EncodeItems(items) + post == Encode(items[0]) + more;
    }
  }

  /** The loop over an array's elements reads them back, one by one. */
  lemma {:induction false} ItemsBack(items: seq<Value>, done: seq<Value>, post: string)
    requires items != [] && forall i :: 0 <= i < |items| ==> Clean(items[i])
    ensures ParseItems(EncodeItems(items) + ("]" + post), done) == Parsed(Array(done + items), post)
    decreases items, 0
  {
    var close, v := "]" + post, items[0];
    if |items| == 1 {
      assert EncodeItems(items) == Encode(v) && items == [v];
      hide Lex, Encode, Clean, Parse;
      ValueBack(v, close);
      SymbolBack(']', post);
    } else {
      var more := EncodeItems(items[1..]) + close;
      assert EncodeItems(items) + close == Encode(v) + ([','] + more);
      assert (done + [v]) + items[1..] == done + items;
      hide Lex, Encode, Clean, Parse, EncodeItems;
      ValueBack(v, [','] + more);
      SymbolBack(',', more);
      ItemsBack(items[1..], done + [v], post);
    }
  }

  ghost predicate Absent(key: Scalar, entries: seq<Entry>) {
    forall i :: 0 <= i < |entries| ==> entries[i].key != key
  }

  lemma {:induction false} PutAbsent(entries: seq<Entry>, e: Entry)
    requires Absent(e.key, entries)
    ensures Put(entries, e) == entries + [e]
  {
    if entries != [] {
      PutAbsent(entries[1..], e);
    }
  }

  lemma {:induction false} MapBack(entries: seq<Entry>, post: string)
    requires Clean(Map(entries))
    ensures Parse(Encode(Map(entries)) + post) == Parsed(Map(entries), post)
    decreases entries, 1
  {
    hide Lex, Encode, EncodeEntry;
    var inner := EncodeEntries(entries) + ("}" + post);
    MapText(entries, post);
    SymbolBack('{', inner);
    SymbolBack('}', post);
    if entries == [] {
      assert inner == ['}'] + post;
    } else {
      assert [] + entries == entries;
      EntriesBack(entries, [], post);
      FirstEntryOpens(entries, "}" + post);
    }
    hide ParseEntries, EncodeEntries;
  }

  lemma FirstEntryOpens(entries: seq<Entry>, post: string)
    requires entries != [] && CleanScalar(entries[0].key)
    ensures var l := Lex(EncodeEntries(entries) + post); l.Lexed? && l.tok != TSym('}')
  {
    hide *;
    var more := FirstEntryText(entries, post);
    ColonEnds(more);
    ScalarBack(entries[0].key, [':'] + more);
    ScalarTokenIsNoBrace(entries[0].key);
  }

  lemma ColonEnds(more: string)
    ensures Ends([':'] + more)
  {
  }

  lemma ScalarTokenIsNoBrace(s: Scalar)
    ensures ScalarToken(s) != TSym('}')
  {
  }

  /** The text of entries begins with the first key and a colon. */
  lemma FirstEntryText(entries: seq<Entry>, post: string) returns (more: string)
    requires entries != []
    ensures EncodeEntries(entries) + post == EncodeScalar(entries[0].key) + ([':'] + more)
  {
    var e := entries[0];
    var key, val := EncodeScalar(e.key), Encode(e.val);
    var rest := if |entries| == 1 then "" else "," + EncodeEntries(entries[1..]);
    assert EncodeEntries(entries) == EncodeEntry(e) + rest && EncodeEntry(e) == key + ([':'] + val);
    hide *;
    more := val + (rest + post);
    assert ((key + ([':'] + val)) + rest) + post == key + ([':'] + (val + (rest + post)));
  }

  /** One entry, up to what comes after its value. */
  lemma {:induction false} EntryBack(e: Entry, more: string, done: seq<Entry>)
    requires CleanEntry(e) && Absent(e.key, done) && Ends(more)
    ensures Parse(EncodeEntry(e) + more) == Parsed(Atom(e.key), ":" + (Encode(e.val) + more))
    ensures Lex(":" + (Encode(e.val) + more)) == Lexed(TSym(':'), Encode(e.val) + more)
    ensures Parse(Encode(e.val) + more) == Parsed(e.val, more)
    ensures Put(done, e) == done + [e]
    decreases e
  {
    var tail := ":" + (Encode(e.val) + more);
    assert EncodeEntry(e) + more == EncodeScalar(e.key) + tail;
    hide Lex, Encode, EncodeScalar, Parse;
    ParseScalar(e.key, tail);
    SymbolBack(':', Encode(e.val) + more);
    ValueBack(e.val, more);
    PutAbsent(done, e);
  }

  /** One round of the loop over a map's entries. */
  lemma EntryRound(e: Entry, more: string, done: seq<Entry>)
    requires CleanEntry(e) && Absent(e.key, done) && Ends(more)
    requires Parse(EncodeEntry(e) + more) == Parsed(Atom(e.key), ":" + (Encode(e.val) + more))
    requires Lex(":" + (Encode(e.val) + more)) == Lexed(TSym(':'), Encode(e.val) + more)
    requires Parse(Encode(e.val) + more) == Parsed(e.val, more)
    requires Put(done, e) == done + [e] && Lex(more).Lexed?
    ensures Lex(more).tok == TSym('}') ==>
      ParseEntries(EncodeEntry(e) + more, done) == Parsed(Map(done + [e]), Lex(more).rest)
    ensures Lex(more).tok == TSym(',') ==>
      ParseEntries(EncodeEntry(e) + more, done) == ParseEntries(Lex(more).rest, done + [e])
  {
    hide Lex, Parse, Encode, EncodeEntry, Put, Clean;
  }

  lemma {:induction false} EntriesBack(entries: seq<Entry>, done: seq<Entry>, post: string)
    requires entries != [] && CleanEntries(done + entries)
    ensures ParseEntries(EncodeEntries(entries) + ("}" + post), done) == Parsed(Map(done + entries), post)
    decreases entries, 0
  {
    var close, e := "}" + post, entries[0];
    assert CleanEntry(e) && Absent(e.key, done) by {
      assert (done + entries)[|done|] == e;
      assert forall i :: 0 <= i < |done| ==> (done + entries)[i] == done[i];
    }
    assert (done + [e]) + entries[1..] == done + entries;
    hide CleanEntries, CleanEntry, Absent;
    if |entries| == 1 {
      assert EncodeEntries(entries) == EncodeEntry(e) && entries == [e];
      hide Lex, Encode, EncodeEntry, EncodeEntries, Parse, ParseEntries, Put;
      EntryBack(e, close, done);
      SymbolBack('}', post);
      EntryRound(e, close, done);
    } else {
      var rest := EncodeEntries(entries[1..]) + close;
      assert EncodeEntries(entries) + close == EncodeEntry(e) + ([','] + rest);
      hide Lex, Encode, EncodeEntry, EncodeEntries, Parse, ParseEntries, Put;
      EntryBack(e, [','] + rest, done);
      SymbolBack(',', rest);
      EntryRound(e, [','] + rest, done);
      EntriesBack(entries[1..], done + [e], post);
    }
  }

  // ----- what the parser can return at all -----

  lemma {:induction false} LexClean(t: string)
    ensures var l := Lex(t); l.Lexed? ==> (l.tok.TInt? ==> FitsInt(l.tok.i)) && (l.tok.TStr? ==> '"' !in l.tok.s)
  {
    if t != [] && IsSpace(t[0]) {
      LexClean(t[1..]);
    }
  }

  lemma {:induction false} ParseClean(t: string)
    ensures Parse(t).Parsed? ==> Clean(Parse(t).v)
    decreases |t|, 0
  {
    LexClean(t);
    var l := Lex(t);
    if l.Lexed? && l.tok == TSym('[') {
      hide Lex;
      ItemsClean(l.rest, []);
    } else if l.Lexed? && l.tok == TSym('{') {
      hide Lex;
      EntriesClean(l.rest, []);
    }
  }

  lemma {:induction false} ItemsClean(t: string, done: seq<Value>)
    requires forall i :: 0 <= i < |done| ==> Clean(done[i])
    ensures ParseItems(t, done).Parsed? ==> Clean(ParseItems(t, done).v)
    decreases |t|, 1
  {
    hide Lex, Parse;
    ParseClean(t);
    var r := Parse(t);
    if r.Parsed? {
      var l := Lex(r.rest);
      if l.Lexed? && l.tok == TSym(',') {
        ItemsClean(l.rest, done + [r.v]);
      }
    }
  }

  lemma {:induction false} PutClean(entries: seq<Entry>, e: Entry)
    requires CleanEntries(entries) && CleanEntry(e)
    ensures CleanEntries(Put(entries, e))
    ensures forall k :: Absent(k, entries) && k != e.key ==> Absent(k, Put(entries, e))
  {
    if entries != [] {
      var first, rest := entries[0], entries[1..];
      assert entries == [first] + rest && Absent(first.key, rest) && CleanEntries(rest);
      if first.key == e.key {
        Prepended(Entry(first.key, e.val), rest);
      } else {
        PutClean(rest, e);
        Prepended(first, Put(rest, e));
      }
    } else {
      Prepended(e, []);
    }
  }

  lemma Prepended(e: Entry, rest: seq<Entry>)
    requires CleanEntry(e) && CleanEntries(rest) && Absent(e.key, rest)
    ensures CleanEntries([e] + rest)
    ensures forall k :: Absent(k, [e] + rest) <==> k != e.key && Absent(k, rest)
  {
    forall k ensures Absent(k, [e] + rest) <==> k != e.key && Absent(k, rest) {
      assert ([e] + rest)[0] == e && forall i :: 0 < i < |[e] + rest| ==> ([e] + rest)[i] == rest[i - 1];
      assert forall i :: 0 <= i < |rest| ==> rest[i] == ([e] + rest)[i + 1];
    }
  }

  lemma {:induction false} EntriesClean(t: string, done: seq<Entry>)
    requires CleanEntries(done)
    ensures ParseEntries(t, done).Parsed? ==> Clean(ParseEntries(t, done).v)
    decreases |t|, 1
  {
    hide Lex, Parse, Put, CleanEntries;
    var key := Parse(t);
    ParseClean(t);
    if key.Parsed? && Lex(key.rest).Lexed? {
      var after := Lex(key.rest).rest;
      ParseClean(after);
      var val := Parse(after);
      if val.Parsed? && key.v.Atom? {
        var e := Entry(key.v.scalar, val.v);
        PutClean(done, e);
        var l := Lex(val.rest);
        if l.Lexed? && l.tok == TSym(',') {
          EntriesClean(l.rest, Put(done, e));
        }
      }
    }
  }

  /** Printing and reading back gives the same value, and uses up exactly what was printed, if and only if every
      integer in it fits C's int, no string in it has a quote, and no map has a key twice. */
  lemma RoundTripExactly(v: Value, post: string)
    requires Ends(post)
    ensures Parse(Encode(v) + post) == Parsed(v, post) <==> Clean(v)
  {
    if Clean(v) {
      ValueBack(v, post);
    }
    ParseClean(Encode(v) + post);
  }
}
