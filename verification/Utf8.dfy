/** The UTF-8 encoder and decoder of clib/utf8.c; the octets are laid out as section 3 of RFC 3629 says. */
module Utf8 {
  import opened Options

  type Octet = o: int | 0 <= o < 256 witness 0

  const LAST: nat := 0x10FFFF

  // ----- one character -----

  predicate InMiddle(o: Octet) {
    o / 64 == 2
  }

  /** utf8_needs. */
  function Needs(c: nat): (n: nat)
    ensures 1 <= n <= 4
  {
    if c <= 0x7F then 1 else if c <= 0x7FF then 2 else if c <= 0xFFFF then 3 else 4
  }

  /** A follow-on octet with the lowest six bits. */
  function Follow(bits: nat): (o: Octet)
    ensures InMiddle(o)
  {
    0x80 + bits % 64
  }

  /** The bits above the lowest six. */
  function Above(c: nat): nat {
    c / 64
  }

  /** Six more bits, from a follow-on octet. */
  function Join(high: nat, o: Octet): nat {
    high * 64 + o % 64
  }

  /** The octets utf8_write writes. */
  function Encode(c: nat): (s: seq<Octet>)
    requires c <= LAST
    ensures |s| == Needs(c)
  {
    match Needs(c)
    case 1 => [c]
    case 2 => [0xC0 + Above(c) % 32, Follow(c)]
    case 3 => [0xE0 + Above(Above(c)) % 16, Follow(Above(c)), Follow(c)]
    case _ => [0xF0 + Above(Above(Above(c))) % 8, Follow(Above(Above(c))), Follow(Above(c)), Follow(c)]
  }

  datatype Read = Ok(c: nat, octets: nat) | Limited | Seek | Invalid

  /** utf8_read of the octets up to the limit. */
  function Decode(s: seq<Octet>): (r: Read)
    ensures r.Ok? ==> 1 <= r.octets <= |s| && r.octets <= 4
  {
    if |s| < 1 then Limited
    else if InMiddle(s[0]) then Seek
    else if s[0] < 0x80 then Ok(s[0], 1)
    else if s[0] < 0xE0 then
      if |s| < 2 then Limited
      else if !InMiddle(s[1]) then Invalid
      else Ok(Join(s[0] % 32, s[1]), 2)
    else if s[0] < 0xF0 then
      if |s| < 3 then Limited
      else if !InMiddle(s[1]) || !InMiddle(s[2]) then Invalid
      else Ok(Join(Join(s[0] % 16, s[1]), s[2]), 3)
    else if s[0] < 0xF8 then
      if |s| < 4 then Limited
      else if !InMiddle(s[1]) || !InMiddle(s[2]) || !InMiddle(s[3]) then Invalid
      else Ok(Join(Join(Join(s[0] % 8, s[1]), s[2]), s[3]), 4)
    else Invalid
  }

  /** utf8_read: a failure leaves the cursor where it was, and no octet at or past the limit is looked at. */
  method Utf8Read(buf: array<Octet>, str: nat, limit: nat) returns (r: Read, cur: nat)
    requires str <= limit <= buf.Length
    ensures r == Decode(buf[str..limit])
    ensures cur == if r.Ok? then str + r.octets else str
  {
    cur := str;
    if str >= limit {
      return Limited, cur;
    }
    var o := buf[str];
    if InMiddle(o) {
      return Seek, cur;
    }
    if o < 0x80 {
      return Ok(o, 1), str + 1;
    } else if o < 0xE0 {
      if str + 1 >= limit {
        return Limited, cur;
      }
      if !InMiddle(buf[str + 1]) {
        return Invalid, cur;
      }
      return Ok(Join(o % 32, buf[str + 1]), 2), str + 2;
    } else if o < 0xF0 {
      if str + 2 >= limit {
        return Limited, cur;
      }
      if !InMiddle(buf[str + 1]) || !InMiddle(buf[str + 2]) {
        return Invalid, cur;
      }
      return Ok(Join(Join(o % 16, buf[str + 1]), buf[str + 2]), 3), str + 3;
    } else if o < 0xF8 {
      if str + 3 >= limit {
        return Limited, cur;
      }
      if !InMiddle(buf[str + 1]) || !InMiddle(buf[str + 2]) || !InMiddle(buf[str + 3]) {
        return Invalid, cur;
      }
      return Ok(Join(Join(Join(o % 8, buf[str + 1]), buf[str + 2]), buf[str + 3]), 4), str + 4;
    }
    return Invalid, cur;
  }

  datatype Written = Done | TooLarge | NoRoom

  /** utf8_write: writes the whole encoding below the limit, or nothing. */
  method Utf8Write(buf: array<Octet>, str: nat, limit: nat, c: nat) returns (r: Written, cur: nat)
    requires str <= limit <= buf.Length
    modifies buf
    ensures c > LAST ==> r == TooLarge
    ensures c <= LAST ==> r == if str + Needs(c) > limit then NoRoom else Done
    ensures r != Done ==> cur == str && buf[..] == old(buf[..])
    ensures r == Done ==> cur == str + Needs(c) && buf[str..cur] == Encode(c)
    ensures r == Done ==> forall i :: 0 <= i < buf.Length && (i < str || cur <= i) ==> buf[i] == old(buf[i])
  {
    cur := str;
    if c > LAST {
      return TooLarge, cur;
    }
    var bytes := Needs(c);
    if str + bytes > limit {
      return NoRoom, cur;
    }
    match bytes {
      case 1 =>
        buf[str] := c;
      case 2 =>
        buf[str], buf[str + 1] := 0xC0 + Above(c) % 32, Follow(c);
      case 3 =>
        buf[str], buf[str + 1], buf[str + 2] := 0xE0 + Above(Above(c)) % 16, Follow(Above(c)), Follow(c);
      case _ =>
        buf[str], buf[str + 1] := 0xF0 + Above(Above(Above(c))) % 8, Follow(Above(Above(c)));
        buf[str + 2], buf[str + 3] := Follow(Above(c)), Follow(c);
    }
    cur := str + bytes;
    assert buf[str..cur] == Encode(c);
    return Done, cur;
  }

  // ----- round trips -----

  lemma JoinFollow(c: nat)
    ensures Join(Above(c), Follow(c)) == c
  {
  }

  lemma JoinParts(high: nat, o: Octet)
    ensures Above(Join(high, o)) == high
    ensures InMiddle(o) ==> Follow(Join(high, o)) == o
  {
  }

  /** How far the top bits reach. */
  lemma TopFits(c: nat)
    requires c <= LAST
    ensures Needs(c) == 2 ==> Above(c) < 32
    ensures Needs(c) == 3 ==> Above(Above(c)) < 16
    ensures Needs(c) == 4 ==> Above(Above(Above(c))) < 8
  {
  }

  /** The first octet of a longer form, and the bits it carries. */
  lemma Lead(h: nat, base: nat, span: nat)
    requires (base, span) in {(0xC0, 32), (0xE0, 16), (0xF0, 8)} && h < span
    ensures (base + h) % span == h && !InMiddle(base + h)
  {
  }

  lemma DecodeTwo(h: nat, o: Octet, rest: seq<Octet>)
    requires h < 32 && InMiddle(o)
    ensures Decode([0xC0 + h, o] + rest) == Ok(Join(h, o), 2)
  {
    Lead(h, 0xC0, 32);
    hide InMiddle, Join;
    var s := [0xC0 + h, o] + rest;
    assert s[0] == 0xC0 + h && s[1] == o;
  }

  lemma DecodeThree(h: nat, o: Octet, p: Octet, rest: seq<Octet>)
    requires h < 16 && InMiddle(o) && InMiddle(p)
    ensures Decode([0xE0 + h, o, p] + rest) == Ok(Join(Join(h, o), p), 3)
  {
    Lead(h, 0xE0, 16);
    hide InMiddle, Join;
    var s := [0xE0 + h, o, p] + rest;
    assert s[0] == 0xE0 + h && s[1] == o && s[2] == p;
  }

  lemma DecodeFour(h: nat, o: Octet, p: Octet, q: Octet, rest: seq<Octet>)
    requires h < 8 && InMiddle(o) && InMiddle(p) && InMiddle(q)
    ensures Decode([0xF0 + h, o, p, q] + rest) == Ok(Join(Join(Join(h, o), p), q), 4)
  {
    Lead(h, 0xF0, 8);
    hide InMiddle, Join;
    var s := [0xF0 + h, o, p, q] + rest;
    assert s[0] == 0xF0 + h && s[1] == o && s[2] == p && s[3] == q;
  }

  /** The octets with the top bits as they are. */
  lemma EncodeIs(c: nat)
    requires c <= LAST
    ensures Needs(c) == 1 ==> Encode(c) == [c] && c < 0x80
    ensures Needs(c) == 2 ==> Above(c) < 32 && Encode(c) == [0xC0 + Above(c), Follow(c)]
    ensures Needs(c) == 3 ==>
      Above(Above(c)) < 16 && Encode(c) == [0xE0 + Above(Above(c)), Follow(Above(c)), Follow(c)]
    ensures Needs(c) == 4 ==>
      var h := Above(Above(Above(c)));
      h < 8 && Encode(c) == [0xF0 + h, Follow(Above(Above(c))), Follow(Above(c)), Follow(c)]
  {
    TopFits(c);
    hide Above, Follow;
  }

  /** Reading what was written gives the character back, whatever follows. */
  lemma DecodeEncode(c: nat, rest: seq<Octet>)
    requires c <= LAST
    ensures Decode(Encode(c) + rest) == Ok(c, Needs(c))
  {
    var b := Above(c);
    var a := Above(b);
    var n := Needs(c);
    EncodeIs(c);
    JoinFollow(c);
    JoinFollow(b);
    JoinFollow(a);
    if n == 1 {
      assert ([c] + rest)[0] == c && !InMiddle(c);
    } else {
      hide *;
      if n == 2 {
        DecodeTwo(b, Follow(c), rest);
      } else if n == 3 {
        DecodeThree(a, Follow(b), Follow(c), rest);
      } else {
        DecodeFour(Above(a), Follow(a), Follow(b), Follow(c), rest);
      }
    }
  }

  /** A read begun inside a character is noticed. */
  lemma InsideIsSeek(c: nat, k: nat, rest: seq<Octet>)
    requires c <= LAST && 0 < k < Needs(c)
    ensures Decode(Encode(c)[k..] + rest) == Seek
  {
    assert (Encode(c)[k..] + rest)[0] == Encode(c)[k];
  }

  lemma LeadBits(o: Octet, base: nat, span: nat)
    requires (base, span) in {(0xC0, 32), (0xE0, 16), (0xF0, 8)} && base <= o < base + span
    ensures base + o % span == o
  {
  }

  /** What a successful read found, form by form. */
  lemma Forms(s: seq<Octet>) returns (h: nat)
    requires Decode(s).Ok?
    ensures var r := Decode(s);
      && (r.octets == 1 ==> s[0] == r.c < 0x80)
      && (r.octets == 2 ==> h < 32 && s[0] == 0xC0 + h && InMiddle(s[1]) && r.c == Join(h, s[1]))
      && (r.octets == 3 ==>
        h < 16 && s[0] == 0xE0 + h && InMiddle(s[1]) && InMiddle(s[2]) && r.c == Join(Join(h, s[1]), s[2]))
      && (r.octets == 4 ==>
        && h < 8 && s[0] == 0xF0 + h && InMiddle(s[1]) && InMiddle(s[2]) && InMiddle(s[3])
        && r.c == Join(Join(Join(h, s[1]), s[2]), s[3]))
  {
    assert s[0] >= 0x80 && !InMiddle(s[0]) ==> s[0] >= 0xC0;
    hide InMiddle, Join;
    if Decode(s).octets == 2 {
      LeadBits(s[0], 0xC0, 32);
      h := s[0] % 32;
    } else if Decode(s).octets == 3 {
      LeadBits(s[0], 0xE0, 16);
      h := s[0] % 16;
    } else if Decode(s).octets == 4 {
      LeadBits(s[0], 0xF0, 8);
      h := s[0] % 8;
    } else {
      h := 0;
    }
  }

  lemma Reencode(s: seq<Octet>)
    requires Decode(s).Ok? && Decode(s).c <= LAST && Needs(Decode(s).c) == Decode(s).octets
    ensures Encode(Decode(s).c) == s[..Decode(s).octets]
  {
    var h := Forms(s);
    var n, c := Decode(s).octets, Decode(s).c;
    EncodeIs(c);
    assert n == 1 || n == 2 || n == 3 || n == 4;
    hide *;
    if n == 1 {
      assert s[..1] == [s[0]];
    } else if n == 2 {
      assert s[..2] == [s[0], s[1]];
      JoinParts(h, s[1]);
    } else if n == 3 {
      assert s[..3] == [s[0], s[1], s[2]];
      JoinParts(h, s[1]);
      JoinParts(Join(h, s[1]), s[2]);
    } else {
      assert s[..4] == [s[0], s[1], s[2], s[3]];
      JoinParts(h, s[1]);
      JoinParts(Join(h, s[1]), s[2]);
      JoinParts(Join(Join(h, s[1]), s[2]), s[3]);
    }
  }

  /** Writing what was read gives the octets back, unless they were an overlong form or beyond the last character. */
  lemma EncodeDecodeExactly(s: seq<Octet>)
    requires Decode(s).Ok?
    ensures var r := Decode(s);
      (r.c <= LAST && Encode(r.c) == s[..r.octets]) <==> (r.c <= LAST && Needs(r.c) == r.octets)
  {
    var r := Decode(s);
    if r.c <= LAST && Needs(r.c) == r.octets {
      TopFits(r.c);
      Reencode(s);
    }
  }

  // ----- whole texts -----

  predicate Characters(text: seq<nat>) {
    forall i :: 0 <= i < |text| ==> text[i] <= LAST
  }

  function EncodeAll(text: seq<nat>): seq<Octet>
    requires Characters(text)
  {
    if text == [] then [] else Encode(text[0]) + EncodeAll(text[1..])
  }

  /** Repeated reads up to the limit. */
  function DecodeAll(s: seq<Octet>): Option<seq<nat>>
    decreases |s|
  {
    if s == [] then Some([])
    else
      var r := Decode(s);
      if !r.Ok? then None
      else
        var more := DecodeAll(s[r.octets..]);
        if more.None? then None else Some([r.c] + more.value)
  }

  /** Repeated writes and then repeated reads give the text back and use up exactly the octets written. */
  lemma {:induction false} TextBack(text: seq<nat>)
    requires Characters(text)
    ensures DecodeAll(EncodeAll(text)) == Some(text)
  {
    if text != [] {
      var c, more := text[0], text[1..];
      assert Characters(more) && c <= LAST;
      var first, rest := Encode(c), EncodeAll(more);
      assert EncodeAll(text) == first + rest;
      hide *;
      DecodeEncode(c, rest);
      TextBack(more);
      DecodeAllStep(first, rest, c);
      assert text == [c] + more;
    }
  }

  lemma DecodeAllStep(first: seq<Octet>, rest: seq<Octet>, c: nat)
    requires first != [] && Decode(first + rest) == Ok(c, |first|)
    ensures var more := DecodeAll(rest);
      DecodeAll(first + rest) == if more.None? then None else Some([c] + more.value)
  {
    assert (first + rest)[|first|..] == rest;
    hide Decode;
  }

  // ----- the octets in plain numbers -----

  /** Section 3 of RFC 3629, with the bits as quotients and remainders. */
  lemma EncodeExactly(c: nat)
    requires c <= LAST
    ensures c < 0x80 ==> Encode(c) == [c]
    ensures 0x80 <= c < 0x800 ==> Encode(c) == [0xC0 + c / 0x40, 0x80 + c % 0x40]
    ensures 0x800 <= c < 0x1_0000 ==> Encode(c) == [0xE0 + c / 0x1000, 0x80 + c / 0x40 % 0x40, 0x80 + c % 0x40]
    ensures 0x1_0000 <= c ==>
      Encode(c) == [0xF0 + c / 0x4_0000, 0x80 + c / 0x1000 % 0x40, 0x80 + c / 0x40 % 0x40, 0x80 + c % 0x40]
  {
    assert c / 0x40 / 0x40 == c / 0x1000 && c / 0x1000 / 0x40 == c / 0x4_0000;
  }

  // ----- which failure -----

  /** The octets that a first octet calls for; 0 where it begins no character. */
  function CalledFor(o: Octet): nat {
    if o < 0x80 then 1
    else if 0xC0 <= o < 0xE0 then 2
    else if 0xE0 <= o < 0xF0 then 3
    else if 0xF0 <= o < 0xF8 then 4
    else 0
  }

  /** The limit is looked at first, then whether the octets after the first are later octets. */
  lemma FailuresExactly(s: seq<Octet>)
    ensures Decode(s) == Limited <==> s == [] || |s| < CalledFor(s[0])
    ensures Decode(s) == Seek <==> s != [] && 0x80 <= s[0] < 0xC0
    ensures Decode(s) == Invalid
      <==> s != [] && (s[0] >= 0xF8 || (CalledFor(s[0]) <= |s| && exists i :: 1 <= i < CalledFor(s[0]) && !(0x80 <= s[i] < 0xC0)))
  {
  }

  /** A character cut short, at any place, is cut by the limit. */
  lemma TruncatedIsLimited(c: nat, k: nat)
    requires c <= LAST && k < Needs(c)
    ensures Decode(Encode(c)[..k]) == Limited
  {
    EncodeIs(c);
    hide Encode;
  }

  /** A character with any later octet replaced by one that is no later octet is invalid, whatever follows. */
  lemma BrokenIsInvalid(c: nat, k: nat, o: Octet, rest: seq<Octet>)
    requires c <= LAST && 0 < k < Needs(c) && !InMiddle(o)
    ensures Decode(Encode(c)[k := o] + rest) == Invalid
  {
    EncodeIs(c);
    hide Encode;
  }

  /** Octets that begin no character. */
  lemma NoLeadIsInvalid(o: Octet, rest: seq<Octet>)
    ensures o >= 0xF8 <==> forall more: seq<Octet> :: Decode([o] + more) == Invalid
  {
    if o < 0xF8 {
      assert Decode([o] + []) != Invalid;
    }
  }
}
