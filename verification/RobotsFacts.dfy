/** What makes an agent name closer and a rule longer (sections 2.2.1 and 2.2.2 of RFC 9309). */
module RobotsFacts {
  import opened Texts
  import opened Robots

  lemma {:induction false} LongerHasMoreBytes(a: string, b: string)
    requires a <= b
    ensures ByteLength(a) <= ByteLength(b) && (a != b ==> ByteLength(a) < ByteLength(b))
  {
    if a == "" {
    } else {
      LongerHasMoreBytes(a[1..], b[1..]);
    }
  }

  /**
   A name is for a reader if it is `*` or begins the reader's name; of two that do, the
   longer is closer, and any is closer than `*`.
   */
  lemma {:induction false} CloserName(reader: string, a: string, b: string)
    ensures AgentLength(reader, a) >= 0 <==> a == "*" || (a != "" && a <= reader)
    ensures a != "" && a <= reader && a != "*" && b == "*" ==> AgentLength(reader, a) > AgentLength(reader, b)
    ensures a != "" && a <= reader && a != "*" && b != "" && b <= reader && b != "*" ==>
              (AgentLength(reader, a) > AgentLength(reader, b) <==> |a| > |b|)
  {
    if a <= reader && b <= reader {
      if |a| >= |b| {
        LongerHasMoreBytes(b, a);
      } else {
        LongerHasMoreBytes(a, b);
      }
    }
  }

  // ---- Rules ----

  lemma {:induction false} StarsFallOut(p: string, q: string)
    ensures WithoutStars(p + "*" + q) == WithoutStars(p + q)
  {
    if p == "" {
      assert p + "*" + q == "*" + q && p + q == q && ("*" + q)[1..] == q;
    } else {
      assert (p + "*" + q)[1..] == p[1..] + "*" + q && (p + q)[1..] == p[1..] + q;
      StarsFallOut(p[1..], q);
    }
  }

  lemma {:induction false} NoStars(p: string)
    requires '*' !in p
    ensures WithoutStars(p) == p
  {
    if p == "" {
    } else {
      assert p[0] in p;
      NoStars(p[1..]);
    }
  }

  /** A star adds nothing to the length of a rule, wherever it stands. */
  lemma StarsDoNotCount(p: string, q: string)
    ensures RuleLength(p + "*" + q) == RuleLength(p + q)
  {
    StarsFallOut(p, q);
  }

  /** Without stars the length is that of the text, but for one end mark. */
  lemma {:induction false} PlainLength(p: string)
    requires '*' !in p
    ensures RuleLength(p + "$") == ByteLength(p)
    ensures p == "" || p[|p| - 1] != '$' ==> RuleLength(p) == ByteLength(p)
  {
    NoStars(p);
    NoStars(p + "$");
    assert (p + "$")[..|p|] == p;
  }
}
