/** Reading and writing JSON: the recursive-descent parser of modules/Json/json.c and the printer of
    modules/Json/Json.rip. */
module Json {
  import opened Options

  datatype Scalar = Null | True | False | Int(i: int) | Str(s: string)

  /** A map is given by its entries, in the order an iteration yields them. */
  datatype Value = Atom(scalar: Scalar) | Array(items: seq<Value>) | Map(entries: seq<Entry>)

  datatype Entry = Entry(key: Scalar, val: Value)

  // ----- integers in decimal -----

  predicate IsDigit(c: char) {
    '0' <= c <= '9'
  }

  function Digit(n: nat): (c: char)
    requires n < 10
    ensures IsDigit(c)
  {
    ('0' as int + n) as char
  }

  function Digits(n: nat): string {
    if n < 10 then [Digit(n)] else Digits(n / 10) + [Digit(n % 10)]
  }

  function IntToS(i: int): string {
    if i < 0 then "-" + Digits(-i) else Digits(i)
  }

  /** The value of the digits that `t` starts with, after `acc`. */
  function ReadDigits(t: string, acc: nat): nat {
    if t == [] || !IsDigit(t[0]) then acc else ReadDigits(t[1..], 10 * acc + (t[0] as int - '0' as int))
  }

  /** C's atoi, before it is cut to an int. */
  function Atoi(t: string): int {
    if t != [] && t[0] == '-' then 0 - ReadDigits(t[1..], 0)
    else if t != [] && t[0] == '+' then ReadDigits(t[1..], 0)
    else ReadDigits(t, 0)
  }

  predicate FitsInt(i: int) {
    -0x8000_0000 <= i < 0x8000_0000
  }

  // ----- the printer -----

  function Encode(v: Value): string
    decreases v
  {
    match v
    case Atom(s) => EncodeScalar(s)
    case Array(items) => "[" + (EncodeItems(items) + "]")
    case Map(entries) => "{" + (EncodeEntries(entries) + "}")
  }

  function EncodeScalar(s: Scalar): string {
    match s
    case Null => "null"
    case True => "true"
    case False => "false"
    case Int(i) => IntToS(i)
    case Str(s) => "\"" + (s + "\"")
  }

  function EncodeItems(items: seq<Value>): string
    decreases items
  {
    if items == [] then ""
    else if |items| == 1 then Encode(items[0])
    else Encode(items[0]) + ("," + EncodeItems(items[1..]))
  }

  function EncodeEntries(entries: seq<Entry>): string
    decreases entries
  {
    if entries == [] then ""
    else if |entries| == 1 then EncodeEntry(entries[0])
    else EncodeEntry(entries[0]) + ("," + EncodeEntries(entries[1..]))
  }

  function EncodeEntry(e: Entry): string
    decreases e
  {
    EncodeScalar(e.key) + (":" + Encode(e.val))
  }

  // ----- the tokens -----

  datatype Token = TInt(i: int) | TDouble | TStr(s: string) | TTrue | TFalse | TNull | TEof | TSym(c: char)

  /** The two errors of json.c; a read past the end of the input; and what the model does not go into: integers
      beyond C's int, doubles, and maps with arrays or maps for keys. */
  datatype Error = InvalidToken | Syntax | OutOfBounds | IntOverflow | Double | KeyNotScalar

  datatype Lexed = Lexed(tok: Token, rest: string) | LexError(error: Error)

  predicate IsSpace(c: char) {
    c == '\n' || c == ' ' || c == '\t'
  }

  predicate IsSymbol(c: char) {
    c in "{}[]:,"
  }

  predicate InNumber(c: char) {
    IsDigit(c) || c == '-' || c == '+' || IsDoubleMark(c)
  }

  predicate IsDoubleMark(c: char) {
    c == 'E' || c == 'e' || c == '.'
  }

  /** What is left after the characters of a number. */
  function AfterNumber(t: string): (r: string)
    ensures |r| <= |t|
  {
    if t == [] || !InNumber(t[0]) then t else AfterNumber(t[1..])
  }

  /** Does a mark of a double come before the number ends? */
  predicate MarksDouble(t: string) {
    t != [] && InNumber(t[0]) && (IsDoubleMark(t[0]) || MarksDouble(t[1..]))
  }

  function NextQuote(t: string): (r: Option<nat>)
    ensures r.Some? ==> r.value < |t| && t[r.value] == '"' && forall i :: 0 <= i < r.value ==> t[i] != '"'
    ensures r.None? ==> forall i :: 0 <= i < |t| ==> t[i] != '"'
  {
    if t == [] then None
    else if t[0] == '"' then Some(0)
    else
      match NextQuote(t[1..])
      case None => None
      case Some(n) =>
        assert forall i :: 0 < i <= n + 1 ==> t[i] == t[1..][i - 1];
        Some(n + 1)
  }

  /** The token that `t` starts with; spaces are gone. */
  function LexToken(t: string): (r: Lexed)
    ensures r.Lexed? ==> |r.rest| <= |t| && (r.tok != TEof ==> |r.rest| < |t|)
  {
    if t == [] || t[0] == '\0' then Lexed(TEof, t)
    else if IsDigit(t[0]) || t[0] == '-' then LexNumber(t)
    else if t[0] == '"' then LexString(t)
    else if IsSymbol(t[0]) then Lexed(TSym(t[0]), t[1..])
    else if "true" <= t then Lexed(TTrue, t[4..])
    else if "false" <= t then Lexed(TFalse, t[5..])
    else if "null" <= t then Lexed(TNull, t[4..])
    else LexError(InvalidToken)
  }

  function LexNumber(t: string): (r: Lexed)
    requires t != []
    ensures r.Lexed? ==> |r.rest| < |t| && r.tok != TEof
  {
    if MarksDouble(t[1..]) then Lexed(TDouble, AfterNumber(t[1..]))
    else if FitsInt(Atoi(t)) then Lexed(TInt(Atoi(t)), AfterNumber(t[1..]))
    else LexError(IntOverflow)
  }

  function LexString(t: string): (r: Lexed)
    requires t != []
    ensures r.Lexed? ==> |r.rest| < |t| && r.tok != TEof
  {
    match NextQuote(t[1..])
    case None => LexError(OutOfBounds)
    case Some(n) => Lexed(TStr(t[1..1 + n]), t[n + 2..])
  }

  /** json_lex. */
  function Lex(t: string): (r: Lexed)
    ensures r.Lexed? ==> |r.rest| <= |t| && (r.tok != TEof ==> |r.rest| < |t|)
  {
    if t != [] && IsSpace(t[0]) then Lex(t[1..]) else LexToken(t)
  }

  // ----- the parser -----

  datatype Parsed = Parsed(v: Value, rest: string) | Failed(error: Error)

  /** ht_set2 on a list of entries: an equal key's value is replaced. */
  function Put(entries: seq<Entry>, e: Entry): seq<Entry> {
    if entries == [] then [e]
    else if entries[0].key == e.key then [Entry(entries[0].key, e.val)] + entries[1..]
    else [entries[0]] + Put(entries[1..], e)
  }

  /** json_parse_r. */
  function Parse(t: string): (r: Parsed)
    ensures r.Parsed? ==> |r.rest| < |t|
    decreases |t|, 0
  {
    match Lex(t)
    case LexError(e) => Failed(e)
    case Lexed(tok, rest) =>
      match tok
      case TInt(i) => Parsed(Atom(Int(i)), rest)
      case TDouble => Failed(Double)
      case TTrue => Parsed(Atom(True), rest)
      case TFalse => Parsed(Atom(False), rest)
      case TNull => Parsed(Atom(Null), rest)
      case TStr(s) => Parsed(Atom(Str(s)), rest)
      case TEof => Failed(Syntax)
      case TSym(c) =>
        if c == '[' then
          match Lex(rest)
          case LexError(e) => Failed(e)
          case Lexed(next, after) => if next == TSym(']') then Parsed(Array([]), after) else ParseItems(rest, [])
        else if c == '{' then
          match Lex(rest)
          case LexError(e) => Failed(e)
          case Lexed(next, after) => if next == TSym('}') then Parsed(Map([]), after) else ParseEntries(rest, [])
        else Failed(Syntax)
  }

  /** The loop over the elements of an array. */
  function ParseItems(t: string, done: seq<Value>): (r: Parsed)
    ensures r.Parsed? ==> |r.rest| < |t|
    decreases |t|, 1
  {
    match Parse(t)
    case Failed(e) => Failed(e)
    case Parsed(v, rest) =>
      match Lex(rest)
      case LexError(e) => Failed(e)
      case Lexed(next, after) =>
        if next == TSym(']') then Parsed(Array(done + [v]), after)
        else if next == TSym(',') then ParseItems(after, done + [v])
        else Failed(Syntax)
  }

  /** The loop over the entries of a map. */
  function ParseEntries(t: string, done: seq<Entry>): (r: Parsed)
    ensures r.Parsed? ==> |r.rest| < |t|
    decreases |t|, 1
  {
    match Parse(t)
    case Failed(e) => Failed(e)
    case Parsed(key, rest) =>
      match Lex(rest)
      case LexError(e) => Failed(e)
      case Lexed(colon, afterColon) =>
        if colon != TSym(':') then Failed(Syntax)
        else
          match Parse(afterColon)
          case Failed(e) => Failed(e)
          case Parsed(val, afterVal) =>
            if !key.Atom? then Failed(KeyNotScalar)
            else
              var entries := Put(done, Entry(key.scalar, val));
              match Lex(afterVal)
              case LexError(e) => Failed(e)
              case Lexed(next, after) =>
                if next == TSym('}') then Parsed(Map(entries), after)
                else if next == TSym(',') then ParseEntries(after, entries)
                else Failed(Syntax)
  }

  // ----- json_lex and json_parse_r, with their cursor -----

  /** json_lex: the cursor goes in and comes out. */
  method JsonLex(input: string, start: nat) returns (r: Lexed, cur: nat)
    requires start <= |input|
    ensures r == Lex(input[start..])
    ensures r.Lexed? ==> start <= cur <= |input| && r.rest == input[cur..]
  {
    hide LexToken;
    cur := start;
    while cur < |input| && IsSpace(input[cur])
      invariant start <= cur <= |input|
      invariant Lex(input[start..]) == Lex(input[cur..])
    {
      assert input[cur..][1..] == input[cur + 1..];
      cur := cur + 1;
    }
    r, cur := JsonLexToken(input, cur);
  }

  /** What the switch does with a character that is not a space. */
  method JsonLexToken(input: string, n: nat) returns (r: Lexed, cur: nat)
    requires n <= |input|
    ensures r == LexToken(input[n..])
    ensures r.Lexed? ==> n <= cur <= |input| && r.rest == input[cur..]
  {
    hide LexNumber, LexString;
    cur := n;
    if n == |input| || input[n] == '\0' {
      return Lexed(TEof, input[n..]), cur;
    }
    var c := input[n];
    if IsDigit(c) || c == '-' {
      r, cur := JsonLexNumber(input, n);
    } else if c == '"' {
      r, cur := JsonLexString(input, n);
    } else if IsSymbol(c) {
      cur := n + 1;
      r := Lexed(TSym(c), input[cur..]);
    } else if "true" <= input[n..] {
      cur := n + 4;
      r := Lexed(TTrue, input[cur..]);
    } else if "false" <= input[n..] {
      cur := n + 5;
      r := Lexed(TFalse, input[cur..]);
    } else if "null" <= input[n..] {
      cur := n + 4;
      r := Lexed(TNull, input[cur..]);
    } else {
      r := LexError(InvalidToken);
    }
  }

  method JsonLexNumber(input: string, n: nat) returns (r: Lexed, cur: nat)
    requires n < |input|
    ensures r == LexNumber(input[n..])
    ensures r.Lexed? ==> n <= cur <= |input| && r.rest == input[cur..]
  {
    var isDouble: bool;
    isDouble, cur := SkipNumber(input, n + 1);
    assert input[n..][1..] == input[n + 1..];
    var i := Atoi(input[n..]);
    if isDouble {
      r := Lexed(TDouble, input[cur..]);
    } else if FitsInt(i) {
      r := Lexed(TInt(i), input[cur..]);
    } else {
      r := LexError(IntOverflow);
    }
  }

  method JsonLexString(input: string, n: nat) returns (r: Lexed, cur: nat)
    requires n < |input|
    ensures r == LexString(input[n..])
    ensures r.Lexed? ==> n <= cur <= |input| && r.rest == input[cur..]
  {
    cur := SkipString(input, n + 1);
    ghost var t := input[n..];
    assert t[1..] == input[n + 1..];
    if cur == |input| {
      return LexError(OutOfBounds), cur;
    }
    assert t[1..cur - n] == input[n + 1..cur] && t[cur - n + 1..] == input[cur + 1..];
    r := Lexed(TStr(input[n + 1..cur]), input[cur + 1..]);
    cur := cur + 1;
  }

  method SkipNumber(input: string, start: nat) returns (isDouble: bool, cur: nat)
    requires start <= |input|
    ensures start <= cur <= |input| && input[cur..] == AfterNumber(input[start..])
    ensures isDouble == MarksDouble(input[start..])
  {
    cur, isDouble := start, false;
    while cur < |input| && InNumber(input[cur])
      invariant start <= cur <= |input|
      invariant AfterNumber(input[start..]) == AfterNumber(input[cur..])
      invariant MarksDouble(input[start..]) == (isDouble || MarksDouble(input[cur..]))
    {
      assert input[cur..][1..] == input[cur + 1..];
      if IsDoubleMark(input[cur]) {
        isDouble := true;
      }
      cur := cur + 1;
    }
  }

  /** The loop over the characters of a string; |input| where no quote comes. */
  method SkipString(input: string, start: nat) returns (cur: nat)
    requires start <= |input|
    ensures match NextQuote(input[start..])
      case None => cur == |input|
      case Some(n) => cur == start + n < |input|
  {
    cur := start;
    while cur < |input| && input[cur] != '"'
      invariant start <= cur <= |input|
      invariant forall i :: start <= i < cur ==> input[i] != '"'
    {
      cur := cur + 1;
    }
    ghost var t := input[start..];
    if cur < |input| {
      assert t[cur - start] == '"';
      assert forall i :: 0 <= i < cur - start ==> t[i] == input[start + i];
    }
  }

  /** peek_type: the cursor is a copy. */
  method PeekType(input: string, cur: nat) returns (r: Lexed)
    requires cur <= |input|
    ensures r == Lex(input[cur..])
  {
    var unused;
    r, unused := JsonLex(input, cur);
  }

  method JsonParseR(input: string, start: nat) returns (r: Parsed, cur: nat)
    requires start <= |input|
    ensures r == Parse(input[start..])
    ensures r.Parsed? ==> start < cur <= |input| && r.rest == input[cur..]
    decreases |input| - start, 1
  {
    hide Lex;
    var l;
    l, cur := JsonLex(input, start);
    if l.LexError? {
      return Failed(l.error), cur;
    }
    match l.tok {
      case TInt(i) => r := Parsed(Atom(Int(i)), l.rest);
      case TDouble => r := Failed(Double);
      case TTrue => r := Parsed(Atom(True), l.rest);
      case TFalse => r := Parsed(Atom(False), l.rest);
      case TNull => r := Parsed(Atom(Null), l.rest);
      case TStr(s) => r := Parsed(Atom(Str(s)), l.rest);
      case TEof => r := Failed(Syntax);
      case TSym(c) =>
        if c != '[' && c != '{' {
          return Failed(Syntax), cur;
        }
        var peek := PeekType(input, cur);
        if peek.LexError? {
          return Failed(peek.error), cur;
        }
        if c == '[' {
          if peek.tok == TSym(']') {
            l, cur := JsonLex(input, cur);
            return Parsed(Array([]), l.rest), cur;
          }
          r, cur := JsonParseArray(input, cur);
        } else {
          if peek.tok == TSym('}') {
            l, cur := JsonLex(input, cur);
            return Parsed(Map([]), l.rest), cur;
          }
          r, cur := JsonParseMap(input, cur);
        }
    }
  }

  /** The array case's loop. */
  method JsonParseArray(input: string, start: nat) returns (r: Parsed, cur: nat)
    requires start <= |input|
    ensures r == ParseItems(input[start..], [])
    ensures r.Parsed? ==> start < cur <= |input| && r.rest == input[cur..]
    decreases |input| - start, 2
  {
    hide Lex, Parse;
    var items: seq<Value> := [];
    cur := start;
    while true
      invariant start <= cur <= |input|
      invariant ParseItems(input[start..], []) == ParseItems(input[cur..], items)
      decreases |input| - cur
    {
      r, cur := JsonParseR(input, cur);
      if r.Failed? {
        return;
      }
      items := items + [r.v];
      var l := PeekType(input, cur);
      if l.LexError? {
        return Failed(l.error), cur;
      }
      if l.tok == TSym(']') {
        l, cur := JsonLex(input, cur);
        return Parsed(Array(items), l.rest), cur;
      } else if l.tok == TSym(',') {
        l, cur := JsonLex(input, cur);
      } else {
        return Failed(Syntax), cur;
      }
    }
  }

  /** The map case's loop. */
  method JsonParseMap(input: string, start: nat) returns (r: Parsed, cur: nat)
    requires start <= |input|
    ensures r == ParseEntries(input[start..], [])
    ensures r.Parsed? ==> start < cur <= |input| && r.rest == input[cur..]
    decreases |input| - start, 2
  {
    hide Lex, Parse, Put;
    var entries: seq<Entry> := [];
    cur := start;
    while true
      invariant start <= cur <= |input|
      invariant ParseEntries(input[start..], []) == ParseEntries(input[cur..], entries)
      decreases |input| - cur
    {
      var key, l;
      key, cur := JsonParseR(input, cur);
      if key.Failed? {
        return key, cur;
      }
      l, cur := JsonLex(input, cur);
      if l.LexError? {
        return Failed(l.error), cur;
      }
      if l.tok != TSym(':') {
        return Failed(Syntax), cur;
      }
      r, cur := JsonParseR(input, cur);
      if r.Failed? {
        return;
      }
      if !key.v.Atom? {
        return Failed(KeyNotScalar), cur;
      }
      entries := Put(entries, Entry(key.v.scalar, r.v));
      l := PeekType(input, cur);
      if l.LexError? {
        return Failed(l.error), cur;
      }
      if l.tok == TSym('}') {
        l, cur := JsonLex(input, cur);
        return Parsed(Map(entries), l.rest), cur;
      } else if l.tok == TSym(',') {
        l, cur := JsonLex(input, cur);
      } else {
        return Failed(Syntax), cur;
      }
    }
  }

  // ----- encode_to_stringbuf -----

  class StringBuf {
    var text: string

    constructor ()
      ensures text == ""
    {
      text := "";
    }

    method Print(s: string)
      modifies this
      ensures text == old(text) + s
    {
      text := text + s;
    }
  }

  method PrintScalar(buf: StringBuf, s: Scalar)
    modifies buf
    ensures buf.text == old(buf.text) + EncodeScalar(s)
  {
    match s {
      case Int(i) => buf.Print(IntToS(i));
      case Str(text) =>
        buf.Print("\"");
        buf.Print(text);
        buf.Print("\"");
      case Null => buf.Print("null");
      case True => buf.Print("true");
      case False => buf.Print("false");
    }
  }

  lemma Enclosed(before: string, open: string, inner: string, close: string)
    ensures ((before + open) + inner) + close == before + (open + (inner + close))
  {
  }

  method EncodeToStringbuf(buf: StringBuf, obj: Value)
    modifies buf
    ensures buf.text == old(buf.text) + Encode(obj)
    decreases obj
  {
    ghost var before := buf.text;
    hide EncodeScalar, EncodeItems, EncodeEntries;
    match obj {
      case Map(entries) =>
        Enclosed(before, "{", EncodeEntries(entries), "}");
        buf.Print("{");
        EncodeMap(buf, entries);
        buf.Print("}");
      case Array(items) =>
        Enclosed(before, "[", EncodeItems(items), "]");
        buf.Print("[");
        EncodeArray(buf, items);
        buf.Print("]");
      case Atom(s) =>
        PrintScalar(buf, s);
    }
  }

  method EncodeArray(buf: StringBuf, items: seq<Value>)
    modifies buf
    ensures buf.text == old(buf.text) + EncodeItems(items)
    decreases items
  {
    var index := 1;
    ghost var todo := items;
    assert buf.text == old(buf.text);
    while index <= |items|
      invariant 1 <= index <= |items| + 1 && todo == items[index - 1..]
      invariant buf.text + EncodeItems(todo) == old(buf.text) + EncodeItems(items)
    {
      ghost var before := buf.text;
      EncodeToStringbuf(buf, items[index - 1]);
      if index < |items| {
        buf.Print(",");
      }
      ItemsStep(before, todo);
      todo := todo[1..];
      index := index + 1;
    }
  }

  lemma ItemsStep(before: string, todo: seq<Value>)
    requires todo != []
    ensures |todo| == 1 ==> before + EncodeItems(todo) == (before + Encode(todo[0])) + EncodeItems(todo[1..])
    ensures |todo| > 1 ==> before + EncodeItems(todo) == ((before + Encode(todo[0])) + ",") + EncodeItems(todo[1..])
  {
    var first, comma, rest := Encode(todo[0]), ",", EncodeItems(todo[1..]);
    if |todo| > 1 {
      assert EncodeItems(todo) == first + (comma + rest);
      hide *;
      Regrouped(before, first, comma, rest);
    } else {
      assert EncodeItems(todo) == first && rest == [];
      hide *;
    }
  }

  lemma Regrouped(a: string, b: string, c: string, d: string)
    ensures a + (b + (c + d)) == ((a + b) + c) + d
  {
  }

  method EncodeMap(buf: StringBuf, entries: seq<Entry>)
    modifies buf
    ensures buf.text == old(buf.text) + EncodeEntries(entries)
    decreases entries
  {
    var index := 1;
    ghost var todo := entries;
    while index <= |entries|
      invariant 1 <= index <= |entries| + 1 && todo == entries[index - 1..]
      invariant buf.text + EncodeEntries(todo) == old(buf.text) + EncodeEntries(entries)
    {
      ghost var before := buf.text;
      EncodePair(buf, entries[index - 1]);
      if index < |entries| {
        buf.Print(",");
      } else {
        buf.Print("");
        assert buf.text == before + EncodeEntry(entries[index - 1]);
      }
      EntriesStep(before, todo);
      todo := todo[1..];
      index := index + 1;
    }
  }

  method EncodePair(buf: StringBuf, e: Entry)
    modifies buf
    ensures buf.text == old(buf.text) + EncodeEntry(e)
    decreases e
  {
    PrintScalar(buf, e.key);
    buf.Print(":");
    EncodeToStringbuf(buf, e.val);
  }

  lemma EntriesStep(before: string, todo: seq<Entry>)
    requires todo != []
    ensures |todo| == 1 ==> before + EncodeEntries(todo) == (before + EncodeEntry(todo[0])) + EncodeEntries(todo[1..])
    ensures |todo| > 1 ==> before + EncodeEntries(todo) == ((before + EncodeEntry(todo[0])) + ",") + EncodeEntries(todo[1..])
  {
    var first, comma, rest := EncodeEntry(todo[0]), ",", EncodeEntries(todo[1..]);
    if |todo| > 1 {
      assert EncodeEntries(todo) == first + (comma + rest);
      hide *;
      Regrouped(before, first, comma, rest);
    } else {
      assert EncodeEntries(todo) == first && rest == [];
      hide *;
    }
  }
}
