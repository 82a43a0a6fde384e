/**
 UTF-8 validity as `unicode/utf8.ValidString` decides it: the well-formed byte
 sequences of section 4 of RFC 3629.
 */
module Utf8 {
  newtype byte = x: int | 0 <= x < 256

  type Bytes = seq<byte>

  predicate Continuation(b: byte) {
    0x80 <= b <= 0xBF
  }

  /** The length of the encoded character at the front, or 0 if there is none. */
  function RuneLength(s: Bytes): (n: nat)
    ensures n <= 4 && n <= |s|
  {
    if s == [] then 0
    else if s[0] < 0x80 then 1
    else if |s| >= 2 && 0xC2 <= s[0] <= 0xDF && Continuation(s[1]) then 2
    else if |s| >= 3 && 0xE0 <= s[0] <= 0xEF && Continuation(s[1]) && Continuation(s[2])
            && (s[0] == 0xE0 ==> s[1] >= 0xA0) && (s[0] == 0xED ==> s[1] <= 0x9F) then 3
    else if |s| >= 4 && 0xF0 <= s[0] <= 0xF4 && Continuation(s[1]) && Continuation(s[2]) && Continuation(s[3])
            && (s[0] == 0xF0 ==> s[1] >= 0x90) && (s[0] == 0xF4 ==> s[1] <= 0x8F) then 4
    else 0
  }

  predicate Valid(s: Bytes) {
    s == [] || (var n := RuneLength(s); n > 0 && Valid(s[n..]))
  }

  /** A character at the front stays the same whatever follows it. */
  lemma RuneLengthLocal(s: Bytes, t: Bytes)
    requires RuneLength(s) > 0
    ensures RuneLength(s + t) == RuneLength(s)
    ensures RuneLength(s[..RuneLength(s)]) == RuneLength(s)
  {
  }

  lemma {:induction false} ValidJoin(s: Bytes, t: Bytes)
    requires Valid(s)
    ensures Valid(s + t) <==> Valid(t)
  {
    if s == [] {
      assert s + t == t;
    } else {
      var n := RuneLength(s);
      RuneLengthLocal(s, t);
      assert (s + t)[n..] == s[n..] + t;
      ValidJoin(s[n..], t);
    }
  }

  /** A position between two characters of a valid text. */
  ghost predicate Boundary(s: Bytes, i: nat) {
    i <= |s| && Valid(s[..i])
  }

  /** In a valid text, a valid front leaves a valid rest. */
  lemma RestIsValid(s: Bytes, i: nat)
    requires Valid(s) && Boundary(s, i)
    ensures Valid(s[i..])
  {
    assert s == s[..i] + s[i..];
    ValidJoin(s[..i], s[i..]);
  }

  /** The character at the front of a valid text is valid by itself. */
  lemma {:induction false} FirstRune(t: Bytes)
    requires Valid(t) && t != []
    ensures RuneLength(t) >= 1 && Valid(t[..RuneLength(t)])
  {
    var n := RuneLength(t);
    RuneLengthLocal(t, []);
    hide RuneLength;
    assert t[..n][n..] == [];
  }

  /** The character that starts at a boundary. */
  lemma {:induction false} RuneAtBoundary(s: Bytes, i: nat)
    requires Valid(s) && Boundary(s, i) && i < |s|
    ensures var n := RuneLength(s[i..]); 1 <= n && i + n <= |s| && Boundary(s, i + n)
  {
    hide RuneLength, Valid;
    RestIsValid(s, i);
    FirstRune(s[i..]);
    var n := RuneLength(s[i..]);
    var rune := s[i..][..n];
    assert s[..i + n] == s[..i] + rune;
    ValidJoin(s[..i], rune);
  }

  /** A boundary lies within every four consecutive positions of a valid text. */
  lemma {:induction false} BoundaryNearby(s: Bytes, from: nat, i: nat) returns (k: nat)
    requires Valid(s) && Boundary(s, from) && from <= i <= |s|
    ensures from <= k <= i < k + 4 && Boundary(s, k)
    ensures i < |s| ==> i < k + RuneLength(s[k..])
    decreases i - from
  {
    if from == |s| {
      k := from;
    } else {
      RuneAtBoundary(s, from);
      var n := RuneLength(s[from..]);
      if i < from + n {
        k := from;
      } else {
        k := BoundaryNearby(s, from + n, i);
      }
    }
  }

  /** Between the ends of a character no position is a boundary. */
  lemma InsideIsNoBoundary(s: Bytes, k: nat, j: nat)
    requires Valid(s) && Boundary(s, k) && k < |s| && k < j < k + RuneLength(s[k..]) && j <= |s|
    ensures !Boundary(s, j)
  {
    assert s[..j] == s[..k] + s[k..j];
    ValidJoin(s[..k], s[k..j]);
    var part := s[k..j];
    assert part == s[k..][..j - k];
    assert RuneLength(part) == 0;
  }
}
