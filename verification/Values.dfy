/** Ripe values as vm/ops.c compares and hashes them. */
module Values {
  import opened Probing
  import opened Keys

  /** A 64-bit word that is compared as it stands (integers, doubles, nil, booleans, pointers to objects
      of other classes), a String object or a Tuple object. Objects have an address, so that two of
      them can hold the same contents. */
  datatype Value =
    | Word(bits: nat)
    | Str(addr: nat, text: string)
    | Tup(addr: nat, elems: seq<Value>)

  /** hash_bytes, applied to a string's characters or to the eight bytes of a word. */
  datatype ByteHash = ByteHash(ofText: string -> nat, ofWord: nat -> nat)

  ghost predicate Fits(hb: ByteHash) {
    && (forall s :: hb.ofText(s) < 0x1_0000_0000)
    && (forall w :: hb.ofWord(w) < 0x1_0000_0000)
  }

  /** A 64-bit word read as a signed integer. */
  function Signed(bits: nat): int {
    if bits % WORD < WORD / 2 then bits % WORD else bits % WORD - WORD
  }

  /** unpack_int64: the arithmetic shift that drops the two tag bits. */
  function UnpackInt(bits: nat): int {
    Signed(bits) / 4
  }

  /** pack_int64 on an integer of 62 bits. */
  function PackInt(i: int): nat {
    (i * 4 + 1) % WORD
  }

  function Unsigned(i: int): (r: nat)
    ensures r < WORD
  {
    i % WORD
  }

  // ----- equality -----

  function Equal(a: Value, b: Value): bool {
    match (a, b)
    case (Str(_, s), Str(_, t)) => s == t
    case (Tup(_, xs), Tup(_, ys)) => |xs| == |ys| && forall i | 0 <= i < |xs| :: Equal(xs[i], ys[i])
    case (Word(x), Word(y)) => x == y
    case _ => false
  }

  /** op_equal3, with the loop that stops at the first pair of unequal elements. */
  method OpEqual(a: Value, b: Value) returns (r: bool)
    ensures r == Equal(a, b)
    ensures r <==> Erase(a) == Erase(b)
    decreases a
  {
    EqualExactly(a, b);
    if a.Str? && b.Str? {
      return a.text == b.text;
    }
    if a.Tup? && b.Tup? {
      if |a.elems| != |b.elems| {
        return false;
      }
      for i := 0 to |a.elems|
        invariant forall j :: 0 <= j < i ==> Equal(a.elems[j], b.elems[j])
      {
        var same := OpEqual(a.elems[i], b.elems[i]);
        if !same {
          return false;
        }
      }
      return true;
    }
    return a.Word? && b.Word? && a.bits == b.bits;
  }

  /** What a value is, wherever its objects are. */
  datatype Content = AWord(bits: nat) | AText(text: string) | ATuple(elems: seq<Content>)

  function Erase(v: Value): Content
    decreases v
  {
    match v
    case Word(bits) => AWord(bits)
    case Str(_, text) => AText(text)
    case Tup(_, elems) => ATuple(seq(|elems|, i requires 0 <= i < |elems| => Erase(elems[i])))
  }

  /** Two values are equal if and only if their contents are, at whatever addresses. */
  lemma {:induction false} EqualExactly(a: Value, b: Value)
    ensures Equal(a, b) <==> Erase(a) == Erase(b)
    decreases a
  {
    if a.Tup? && b.Tup? && |a.elems| == |b.elems| {
      forall i | 0 <= i < |a.elems|
        ensures Equal(a.elems[i], b.elems[i]) <==> Erase(a).elems[i] == Erase(b).elems[i]
      {
        EqualExactly(a.elems[i], b.elems[i]);
      }
    } else if a.Tup? && b.Tup? {
      assert |Erase(a).elems| != |Erase(b).elems|;
    }
  }

  // ----- hash -----

  function Hash(hb: ByteHash, v: Value): nat
    decreases v
  {
    match v
    case Str(_, s) => hb.ofText(s)
    case Tup(_, xs) => TupleHash(hb, v, |xs|)
    case Word(bits) => if bits % 4 == 0 then hb.ofWord(bits) else Unsigned(UnpackInt(bits))
  }

  /** The running sum over the first `n` elements, in 64-bit unsigned arithmetic. */
  function TupleHash(hb: ByteHash, v: Value, n: nat): nat
    requires v.Tup? && n <= |v.elems|
    decreases v, n
  {
    if n == 0 then 89 else (TupleHash(hb, v, n - 1) + Hash(hb, v.elems[n - 1])) % WORD
  }

  /** op_hash. */
  method OpHash(hb: ByteHash, v: Value) returns (h: nat)
    ensures h == Hash(hb, v)
    decreases v
  {
    match v
    case Str(_, s) =>
      h := hb.ofText(s);
    case Tup(_, xs) =>
      h := 89;
      for i := 0 to |xs|
        invariant h == TupleHash(hb, v, i)
      {
        var e := OpHash(hb, xs[i]);
        h := (h + e) % WORD;
      }
    case Word(bits) =>
      h := if bits % 4 == 0 then hb.ofWord(bits) else Unsigned(UnpackInt(bits));
  }

  function Sum(s: seq<nat>): nat {
    if s == [] then 0 else Sum(s[..|s| - 1]) + s[|s| - 1]
  }

  /** A tuple hashes to 89 and the sum of its elements' hashes, in 64 bits. */
  lemma {:induction false} TupleHashIs(hb: ByteHash, v: Value, n: nat)
    requires v.Tup? && n <= |v.elems|
    ensures TupleHash(hb, v, n) == (89 + Sum(seq(n, i requires 0 <= i < n => Hash(hb, v.elems[i])))) % WORD
  {
    var s := seq(n, i requires 0 <= i < n => Hash(hb, v.elems[i]));
    if n > 0 {
      TupleHashIs(hb, v, n - 1);
      assert s[..n - 1] == seq(n - 1, i requires 0 <= i < n - 1 => Hash(hb, v.elems[i]));
      ModOfSum(89 + Sum(s[..n - 1]), s[n - 1]);
    }
  }

  /** What each kind of value hashes to. */
  lemma HashIs(hb: ByteHash, v: Value)
    ensures v.Str? ==> Hash(hb, v) == hb.ofText(v.text)
    ensures v.Word? && v.bits % 4 == 0 ==> Hash(hb, v) == hb.ofWord(v.bits)
    ensures v.Tup? ==>
      Hash(hb, v) == (89 + Sum(seq(|v.elems|, i requires 0 <= i < |v.elems| => Hash(hb, v.elems[i])))) % WORD
  {
    if v.Tup? {
      TupleHashIs(hb, v, |v.elems|);
    }
  }

  lemma ModOfSum(a: nat, b: nat)
    ensures (a % WORD + b) % WORD == (a + b) % WORD
  {
    assert a + b == a / WORD * WORD + (a % WORD + b);
  }

  /** An integer or a double is hashed by its word without the tag, shifted right with its sign. */
  lemma TaggedHash(hb: ByteHash, bits: nat)
    requires bits < WORD && bits % 4 != 0
    ensures var h := Hash(hb, Word(bits));
      h % 0x4000_0000_0000_0000 == bits / 4 && h / 0x4000_0000_0000_0000 == if bits < WORD / 2 then 0 else 3
  {
    if bits < WORD / 2 {
      assert UnpackInt(bits) == bits / 4;
      assert Unsigned(bits / 4) == bits / 4;
    } else {
      assert UnpackInt(bits) == bits / 4 - 0x4000_0000_0000_0000;
      assert Unsigned(bits / 4 - 0x4000_0000_0000_0000) == bits / 4 + 3 * 0x4000_0000_0000_0000;
    }
    hide Unsigned, UnpackInt, Signed;
  }

  // ----- what the hash table needs of them -----

  lemma {:induction false} EqualReflexive(a: Value)
    ensures Equal(a, a)
  {
    if a.Tup? {
      forall i | 0 <= i < |a.elems|
        ensures Equal(a.elems[i], a.elems[i])
      {
        EqualReflexive(a.elems[i]);
      }
    }
  }

  lemma {:induction false} EqualSymmetric(a: Value, b: Value)
    ensures Equal(a, b) ==> Equal(b, a)
  {
    if a.Tup? && b.Tup? && Equal(a, b) {
      forall i | 0 <= i < |a.elems|
        ensures Equal(b.elems[i], a.elems[i])
      {
        EqualSymmetric(a.elems[i], b.elems[i]);
      }
    }
  }

  lemma {:induction false} EqualTransitive(a: Value, b: Value, c: Value)
    ensures Equal(a, b) && Equal(b, c) ==> Equal(a, c)
  {
    if a.Tup? && b.Tup? && c.Tup? && Equal(a, b) && Equal(b, c) {
      forall i | 0 <= i < |a.elems|
        ensures Equal(a.elems[i], c.elems[i])
      {
        EqualTransitive(a.elems[i], b.elems[i], c.elems[i]);
      }
    }
  }

  /** Equal values hash equally, however deep the tuples are nested. */
  lemma {:induction false} EqualHash(hb: ByteHash, a: Value, b: Value)
    requires Equal(a, b)
    ensures Hash(hb, a) == Hash(hb, b)
    decreases a
  {
    if a.Tup? {
      EqualTupleHash(hb, a, b, |a.elems|);
    }
  }

  lemma {:induction false} EqualTupleHash(hb: ByteHash, a: Value, b: Value, n: nat)
    requires a.Tup? && b.Tup? && Equal(a, b) && n <= |a.elems|
    ensures TupleHash(hb, a, n) == TupleHash(hb, b, n)
    decreases a, n
  {
    if n > 0 {
      EqualTupleHash(hb, a, b, n - 1);
      EqualHash(hb, a.elems[n - 1], b.elems[n - 1]);
    }
  }

  lemma HashFits(hb: ByteHash, v: Value)
    requires Fits(hb)
    ensures Hash(hb, v) < WORD
  {
  }

  function ValueKeying(hb: ByteHash): Keying<Value> {
    Keying((v: Value) => Hash(hb, v), (a: Value, b: Value) => Equal(a, b))
  }

  /** Value equality and hash are what a table may be built over. */
  lemma ValuesLawful(hb: ByteHash)
    requires Fits(hb)
    ensures Lawful(ValueKeying(hb))
  {
    forall a: Value
      ensures Equal(a, a) && Hash(hb, a) < WORD
    {
      EqualReflexive(a);
      HashFits(hb, a);
    }
    forall a: Value, b: Value
      ensures Equal(a, b) ==> Equal(b, a) && Hash(hb, a) == Hash(hb, b)
    {
      EqualSymmetric(a, b);
      if Equal(a, b) {
        EqualHash(hb, a, b);
      }
    }
    forall a: Value, b: Value, c: Value
      ensures Equal(a, b) && Equal(b, c) ==> Equal(a, c)
    {
      EqualTransitive(a, b, c);
    }
  }

  function Int(i: int): Value {
    Word(PackInt(i))
  }

  /** An integer of 62 bits survives packing, and hashes to its 64-bit two's complement. */
  lemma IntHash(hb: ByteHash, i: int)
    requires -0x2000_0000_0000_0000 <= i < 0x2000_0000_0000_0000
    ensures UnpackInt(PackInt(i)) == i
    ensures Hash(hb, Int(i)) == Unsigned(i)
  {
    assert (i * 4 + 1) % WORD == if i >= 0 then i * 4 + 1 else i * 4 + 1 + WORD;
  }
}
