/** What valid UTF-8 is: the encodings of Unicode scalar values, one after the other (section 3 of RFC 3629). */
module Utf8Encoding {
  import opened Utf8

  /** A code point that is not a surrogate. */
  predicate Scalar(c: int) {
    0 <= c <= 0xD7FF || 0xE000 <= c <= 0x10FFFF
  }

  /** The lowest six bits of a number, as a continuation byte. */
  function Tail(n: nat): byte {
    (0x80 + n % 64) as byte
  }

  function Encode(c: int): Bytes
    requires Scalar(c)
  {
    if c < 0x80 then [c as byte]
    else if c < 0x800 then [(0xC0 + c / 64) as byte, Tail(c)]
    else if c < 0x1_0000 then [(0xE0 + c / 4096) as byte, Tail(c / 64), Tail(c)]
    else [(0xF0 + c / 262144) as byte, Tail(c / 4096), Tail(c / 64), Tail(c)]
  }

  ghost predicate Scalars(cs: seq<int>) {
    forall i :: 0 <= i < |cs| ==> Scalar(cs[i])
  }

  function EncodeAll(cs: seq<int>): Bytes
    requires Scalars(cs)
  {
    if cs == [] then [] else Encode(cs[0]) + EncodeAll(cs[1..])
  }

  lemma {:induction false} EncodedIsRune(c: int, rest: Bytes)
    requires Scalar(c)
    ensures RuneLength(Encode(c) + rest) == |Encode(c)| > 0
  {
    hide RuneLength, Tail;
    if c < 0x80 {
      OneByteRune(c as byte, rest);
    } else if c < 0x800 {
      TailContinues(c);
      TwoByteRune((0xC0 + c / 64) as byte, Tail(c), rest);
    } else if c < 0x1_0000 {
      EncodedThree(c, rest);
    } else {
      EncodedFour(c, rest);
    }
  }

  lemma TailContinues(n: nat)
    ensures Continuation(Tail(n)) && Tail(n) as int == 0x80 + n % 64
  {
  }

  lemma {:induction false} EncodedThree(c: int, rest: Bytes)
    requires Scalar(c) && 0x800 <= c < 0x1_0000
    ensures RuneLength(Encode(c) + rest) == 3
  {
    hide RuneLength, Tail;
    TailContinues(c / 64);
    TailContinues(c);
    assert c / 64 / 64 == c / 4096;
    ThreeByteRune((0xE0 + c / 4096) as byte, Tail(c / 64), Tail(c), rest);
  }

  lemma {:induction false} EncodedFour(c: int, rest: Bytes)
    requires Scalar(c) && c >= 0x1_0000
    ensures RuneLength(Encode(c) + rest) == 4
  {
    hide RuneLength, Tail;
    TailContinues(c / 4096);
    TailContinues(c / 64);
    TailContinues(c);
    assert c / 4096 / 64 == c / 262144;
    FourByteRune((0xF0 + c / 262144) as byte, Tail(c / 4096), Tail(c / 64), Tail(c), rest);
  }

  lemma OneByteRune(a: byte, rest: Bytes)
    requires a < 0x80
    ensures RuneLength([a] + rest) == 1
  {
    assert ([a] + rest)[0] == a;
  }

  lemma TwoByteRune(a: byte, b: byte, rest: Bytes)
    requires 0xC2 <= a <= 0xDF && Continuation(b)
    ensures RuneLength([a, b] + rest) == 2
  {
    var s := [a, b] + rest;
    assert s[0] == a && s[1] == b;
  }

  lemma ThreeByteRune(a: byte, b: byte, d: byte, rest: Bytes)
    requires 0xE0 <= a <= 0xEF && Continuation(b) && Continuation(d)
    requires (a == 0xE0 ==> b >= 0xA0) && (a == 0xED ==> b <= 0x9F)
    ensures RuneLength([a, b, d] + rest) == 3
  {
    var s := [a, b, d] + rest;
    assert s[0] == a && s[1] == b && s[2] == d;
  }

  lemma FourByteRune(a: byte, b: byte, d: byte, e: byte, rest: Bytes)
    requires 0xF0 <= a <= 0xF4 && Continuation(b) && Continuation(d) && Continuation(e)
    requires (a == 0xF0 ==> b >= 0x90) && (a == 0xF4 ==> b <= 0x8F)
    ensures RuneLength([a, b, d, e] + rest) == 4
  {
    var s := [a, b, d, e] + rest;
    assert s[0] == a && s[1] == b && s[2] == d && s[3] == e;
  }

  lemma {:induction false} TwoBytes(a: byte, b: byte)
    requires 0xC2 <= a <= 0xDF && Continuation(b)
    ensures var c := 64 * (a as int - 0xC0) + (b as int - 0x80); Scalar(c) && Encode(c) == [a, b]
  {
    hide Tail;
    var n, x := a as int - 0xC0, b as int - 0x80;
    By64(64 * n + x, n, x);
    TailOf(n, b);
  }

  lemma By64(c: nat, q: nat, r: nat)
    requires c == 64 * q + r && r < 64
    ensures c / 64 == q
  {
  }

  lemma By4096(c: nat, q: nat, r: nat)
    requires c == 4096 * q + r && r < 4096
    ensures c / 4096 == q
  {
  }

  lemma By262144(c: nat, q: nat, r: nat)
    requires c == 262144 * q + r && r < 262144
    ensures c / 262144 == q
  {
  }

  lemma TailOf(n: nat, b: byte)
    requires Continuation(b)
    ensures Tail(64 * n + (b as int - 0x80)) == b
  {
  }

  lemma {:induction false} ThreeBytes(a: byte, b: byte, d: byte)
    requires 0xE0 <= a <= 0xEF && Continuation(b) && Continuation(d)
    requires (a == 0xE0 ==> b >= 0xA0) && (a == 0xED ==> b <= 0x9F)
    ensures var c := 4096 * (a as int - 0xE0) + 64 * (b as int - 0x80) + (d as int - 0x80);
            Scalar(c) && Encode(c) == [a, b, d]
  {
    hide Tail;
    var n, x, y := a as int - 0xE0, b as int - 0x80, d as int - 0x80;
    var c := 4096 * n + 64 * x + y;
    By4096(c, n, 64 * x + y);
    By64(c, 64 * n + x, y);
    TailOf(n, b);
    TailOf(64 * n + x, d);
    assert c == 64 * (64 * n + x) + y;
  }

  lemma {:induction false} FourBytes(a: byte, b: byte, d: byte, e: byte)
    requires 0xF0 <= a <= 0xF4 && Continuation(b) && Continuation(d) && Continuation(e)
    requires (a == 0xF0 ==> b >= 0x90) && (a == 0xF4 ==> b <= 0x8F)
    ensures var c := 262144 * (a as int - 0xF0) + 4096 * (b as int - 0x80) + 64 * (d as int - 0x80) + (e as int - 0x80);
            Scalar(c) && Encode(c) == [a, b, d, e]
  {
    hide Tail;
    var n, x, y, z := a as int - 0xF0, b as int - 0x80, d as int - 0x80, e as int - 0x80;
    var c := 262144 * n + 4096 * x + 64 * y + z;
    By262144(c, n, 4096 * x + 64 * y + z);
    By4096(c, 64 * n + x, 64 * y + z);
    By64(c, 4096 * n + 64 * x + y, z);
    TailOf(n, b);
    TailOf(64 * n + x, d);
    TailOf(4096 * n + 64 * x + y, e);
    assert c == 64 * (4096 * n + 64 * x + y) + z;
    assert 4096 * n + 64 * x + y == 64 * (64 * n + x) + y;
  }

  /** The character at the front of a text. */
  lemma {:induction false} RuneIsEncoded(s: Bytes) returns (c: int)
    requires RuneLength(s) > 0
    ensures Scalar(c) && s[..RuneLength(s)] == Encode(c)
  {
    hide Encode, Scalar;
    var n := RuneLength(s);
    if n == 1 {
      c := s[0] as int;
      OneByte(s[0]);
      assert s[..1] == [s[0]];
    } else if n == 2 {
      c := 64 * (s[0] as int - 0xC0) + (s[1] as int - 0x80);
      TwoBytes(s[0], s[1]);
      assert s[..2] == [s[0], s[1]];
    } else if n == 3 {
      c := 4096 * (s[0] as int - 0xE0) + 64 * (s[1] as int - 0x80) + (s[2] as int - 0x80);
      ThreeBytes(s[0], s[1], s[2]);
      assert s[..3] == [s[0], s[1], s[2]];
    } else {
      c := 262144 * (s[0] as int - 0xF0) + 4096 * (s[1] as int - 0x80) + 64 * (s[2] as int - 0x80) +
           (s[3] as int - 0x80);
      FourBytes(s[0], s[1], s[2], s[3]);
      assert s[..4] == [s[0], s[1], s[2], s[3]];
    }
  }

  lemma OneByte(a: byte)
    requires a < 0x80
    ensures Scalar(a as int) && Encode(a as int) == [a]
  {
  }

  lemma {:induction false} EncodedIsValid(cs: seq<int>)
    requires Scalars(cs)
    ensures Valid(EncodeAll(cs))
  {
    if cs == [] {
    } else {
      var rest := EncodeAll(cs[1..]);
      EncodedIsRune(cs[0], rest);
      EncodedIsValid(cs[1..]);
      assert EncodeAll(cs)[|Encode(cs[0])|..] == rest;
    }
  }

  lemma {:induction false} ValidIsEncoded(s: Bytes) returns (cs: seq<int>)
    requires Valid(s)
    ensures Scalars(cs) && EncodeAll(cs) == s
  {
    if s == [] {
      cs := [];
    } else {
      var n := RuneLength(s);
      var c := RuneIsEncoded(s);
      var rest := ValidIsEncoded(s[n..]);
      cs := [c] + rest;
      assert cs[1..] == rest;
      assert s == s[..n] + s[n..];
    }
  }

  ghost predicate Encodes(s: Bytes, cs: seq<int>) {
    Scalars(cs) && EncodeAll(cs) == s
  }

  /** A text is valid if and only if it is the encoding of some characters. */
  lemma {:induction false} ValidExactly(s: Bytes)
    ensures Valid(s) <==> exists cs :: Encodes(s, cs)
  {
    if Valid(s) {
      var cs := ValidIsEncoded(s);
      assert Encodes(s, cs);
    }
    if cs :| Encodes(s, cs) {
      EncodedIsValid(cs);
    }
  }
}
