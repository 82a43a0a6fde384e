/** What the notions of `Texts` mean: which characters are space, what trimming leaves, and how long an encoding is. */
module TextFacts {
  import opened Texts
  import opened Utf8
  import opened Utf8Encoding

  /** The characters with the property White_Space of the Unicode standard, by their code points. */
  const SPACES: seq<int> := [
    0x09, 0x0A, 0x0B, 0x0C, 0x0D, 0x20, 0x85, 0xA0, 0x1680, 0x2000, 0x2001, 0x2002, 0x2003, 0x2004, 0x2005,
    0x2006, 0x2007, 0x2008, 0x2009, 0x200A, 0x2028, 0x2029, 0x202F, 0x205F, 0x3000]

  lemma SpaceExactly(c: char)
    ensures IsSpace(c) <==> c as int in SPACES
  {
  }

  ghost predicate Spaces(s: string) {
    forall i :: 0 <= i < |s| ==> IsSpace(s[i])
  }

  lemma {:induction false} TrimLeftIs(s: string)
    ensures var r := TrimLeft(s); var n := |s| - |r|;
            s[n..] == r && Spaces(s[..n]) && (r != "" ==> !IsSpace(r[0]))
  {
    hide IsSpace;
    if s != "" && IsSpace(s[0]) {
      var t := s[1..];
      var n := |t| - |TrimLeft(t)|;
      TrimLeftIs(t);
      assert s[..n + 1] == [s[0]] + t[..n] && s[n + 1..] == t[n..];
    }
  }

  lemma {:induction false} TrimRightIs(s: string)
    ensures var r := TrimRight(s);
            r <= s && Spaces(s[|r|..]) && (r != "" ==> !IsSpace(r[|r| - 1]))
  {
    hide IsSpace;
    if s != "" && IsSpace(s[|s| - 1]) {
      var t := s[..|s| - 1];
      var n := |TrimRight(t)|;
      TrimRightIs(t);
      assert s[n..] == t[n..] + [s[|s| - 1]];
    }
  }

  /** Trimming takes spaces off both ends, and what it leaves neither begins nor ends with one. */
  lemma {:induction false} TrimExactly(s: string) returns (left: string, right: string)
    ensures s == left + Trim(s) + right && Spaces(left) && Spaces(right)
    ensures Trim(s) == "" || Solid(Trim(s))
  {
    hide IsSpace, TrimLeft, TrimRight;
    var t := TrimLeft(s);
    TrimLeftIs(s);
    TrimRightIs(t);
    left, right := s[..|s| - |t|], t[|TrimRight(t)|..];
    assert t == TrimRight(t) + right;
    assert s == left + t;
    if Trim(s) != "" {
      assert Trim(s)[0] == t[0];
    }
  }

  function Points(s: string): seq<int> {
    if s == "" then [] else [s[0] as int] + Points(s[1..])
  }

  /** The length in bytes is that of the UTF-8 encoding. */
  lemma {:induction false} BytesAreEncoded(s: string)
    ensures Scalars(Points(s)) && ByteLength(s) == |EncodeAll(Points(s))|
  {
    if s == "" {
    } else {
      BytesAreEncoded(s[1..]);
      assert Points(s)[1..] == Points(s[1..]);
    }
  }
}
