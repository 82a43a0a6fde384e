/** Which watches a confirmed advisory affects, `internal/alert/match.go`. */
module AlertMatch {
  import opened Texts
  import opened VersionRanges

  datatype Ecosystem = Go | Npm | Rust | Pub | OtherEcosystem(name: string)

  datatype Vulnerability = Vulnerability(ecosystem: Ecosystem, package: string, versionRange: string, patched: string)

  datatype Watch = Watch(id: string, ecosystem: Ecosystem, package: string, version: string, active: bool)

  datatype Kind = Reviewed | NoKind | OtherKind

  datatype Publication = Published | NoState | OtherState

  datatype Advisory = Advisory(
    id: string, kind: Kind, state: Publication, critical: bool,
    publishedAt: string, reviewedAt: string, withdrawnAt: string, vulnerabilities: seq<Vulnerability>)

  datatype Hit = Hit(watch: Watch, vulnerability: Vulnerability)

  const MAXIMUM_VULNERABILITIES := 100
  const MAXIMUM_PACKAGE := 255
  const MAXIMUM_PATCHED := 100

  predicate GhsaChar(c: char) {
    'a' <= c <= 'z' || '0' <= c <= '9'
  }

  predicate GhsaId(s: string) {
    && |s| == 19 && s[..5] == "GHSA-" && s[9] == '-' && s[14] == '-'
    && forall i :: 5 <= i < 19 && i != 9 && i != 14 ==> GhsaChar(s[i])
  }

  /** `confirmed`, with the test for an RFC 3339 time that is not zero. */
  predicate Confirmed(timestamp: string -> bool, a: Advisory) {
    && GhsaId(a.id) && a.critical && a.withdrawnAt == ""
    && 1 <= |a.vulnerabilities| <= MAXIMUM_VULNERABILITIES && timestamp(a.publishedAt)
    && !a.state.OtherState?
    && ((a.kind.Reviewed? && timestamp(a.reviewedAt)) || (a.kind.NoKind? && a.state.Published?))
  }

  /** `GHSA-` and three groups of four small letters or digits, with hyphens between them. */
  predicate Ghsa(s: string) {
    && |s| == 19 && s[..5] == "GHSA-" && Group(s[5..9]) && s[9..10] == "-" && Group(s[10..14]) && s[14..15] == "-"
    && Group(s[15..])
  }

  predicate Group(s: string) {
    |s| == 4 && forall i :: 0 <= i < 4 ==> 0x61 <= s[i] as int <= 0x7A || 0x30 <= s[i] as int <= 0x39
  }

  /** What keeps an advisory from being acted on. */
  predicate Doubtful(timestamp: string -> bool, a: Advisory) {
    || !Ghsa(a.id) || !a.critical || a.withdrawnAt != "" || !timestamp(a.publishedAt)
    || |a.vulnerabilities| == 0 || |a.vulnerabilities| > 100
    || a.state == OtherState || a.kind == OtherKind
    || (a.kind == Reviewed && !timestamp(a.reviewedAt)) || (a.kind == NoKind && a.state != Published)
  }

  lemma {:induction false} GhsaExactly(s: string)
    ensures GhsaId(s) <==> Ghsa(s)
  {
    if |s| == 19 {
      GroupAt(s, 5);
      GroupAt(s, 10);
      GroupAt(s, 15);
      assert s[15..19] == s[15..];
      assert s[9..10] == [s[9]] && s[14..15] == [s[14]];
      hide Group, GhsaChar;
      assert GhsaId(s) ==> Ghsa(s);
      if Ghsa(s) {
        forall i | 5 <= i < 19 && i != 9 && i != 14
          ensures GhsaChar(s[i])
        {
        }
      }
    }
  }

  lemma GroupAt(s: string, k: nat)
    requires k + 4 <= |s|
    ensures Group(s[k..k + 4]) <==> forall i :: k <= i < k + 4 ==> GhsaChar(s[i])
  {
    var g := s[k..k + 4];
    assert forall i :: 0 <= i < 4 ==> g[i] == s[k + i];
    assert forall i :: k <= i < k + 4 ==> s[i] == g[i - k];
  }

  lemma ConfirmedExactly(timestamp: string -> bool, a: Advisory)
    ensures Confirmed(timestamp, a) <==> !Doubtful(timestamp, a)
  {
    hide GhsaId, Ghsa;
    GhsaExactly(a.id);
  }

  predicate Admissible(v: Vulnerability) {
    !v.ecosystem.OtherEcosystem? && v.package != "" && ByteLength(v.package) <= MAXIMUM_PACKAGE &&
      ByteLength(v.patched) <= MAXIMUM_PATCHED
  }

  /** The vulnerability is about this watch, and its version is proven affected. */
  ghost predicate Affects(v: Vulnerability, w: Watch) {
    && v.ecosystem in {Go, Npm, Rust, Pub} && v.package != "" && ByteLength(v.package) <= 255
    && ByteLength(v.patched) <= 100 && w.id != "" && w.active && w.ecosystem == v.ecosystem && w.package == v.package
    && Affected(w.version, v.versionRange)
  }

  /** Some vulnerability affects some watch of this identity. */
  ghost predicate Alerted(vs: seq<Vulnerability>, ws: seq<Watch>, id: string) {
    exists v, w :: v in vs && w in ws && w.id == id && Affects(v, w)
  }

  ghost predicate Listed(hits: seq<Hit>, id: string) {
    exists i :: 0 <= i < |hits| && hits[i].watch.id == id
  }

  /** Hits name each watch identity once, and only watches and vulnerabilities that were given. */
  ghost predicate Proper(vs: seq<Vulnerability>, ws: seq<Watch>, hits: seq<Hit>) {
    && (forall h :: h in hits ==> h.watch in ws && h.vulnerability in vs && Affects(h.vulnerability, h.watch))
    && (forall i, j :: 0 <= i < j < |hits| ==> hits[i].watch.id != hits[j].watch.id)
  }

  /** Position `(p, q)` comes before `(i, j)`: an earlier vulnerability, or the same and an earlier watch. */
  predicate Sooner(p: nat, q: nat, i: nat, j: nat) {
    p < i || (p == i && q < j)
  }

  /** No pair of a vulnerability and a watch of this identity is affected before position `(i, j)`. */
  ghost predicate NoneSooner(vs: seq<Vulnerability>, ws: seq<Watch>, id: string, i: nat, j: nat) {
    forall p: nat, q: nat ::
      p < |vs| && q < |ws| && Sooner(p, q, i, j) && ws[q].id == id ==> !Affects(vs[p], ws[q])
  }

  datatype Spot = Spot(v: nat, w: nat)

  /** Every hit is the first for its watch, and the hits are listed as they are found. */
  ghost predicate InTurn(vs: seq<Vulnerability>, ws: seq<Watch>, hits: seq<Hit>, spots: seq<Spot>) {
    && |spots| == |hits|
    && (forall k :: 0 <= k < |hits| ==>
          && spots[k].v < |vs| && spots[k].w < |ws| && hits[k] == Hit(ws[spots[k].w], vs[spots[k].v])
          && NoneSooner(vs, ws, hits[k].watch.id, spots[k].v, spots[k].w))
    && forall k, l :: 0 <= k < l < |hits| ==> Sooner(spots[k].v, spots[k].w, spots[l].v, spots[l].w)
  }

  /** All spots come before `(i, j)`. */
  ghost predicate Before(spots: seq<Spot>, i: nat, j: nat) {
    forall k :: 0 <= k < |spots| ==> Sooner(spots[k].v, spots[k].w, i, j)
  }

  lemma {:induction false} NotYet(vs: seq<Vulnerability>, ws: seq<Watch>, id: string, i: nat, j: nat)
    requires i < |vs| && j <= |ws| && !Alerted(vs[..i], ws, id) && !Alerted([vs[i]], ws[..j], id)
    ensures NoneSooner(vs, ws, id, i, j)
  {
    hide Affects;
    forall p: nat, q: nat | p < |vs| && q < |ws| && Sooner(p, q, i, j) && ws[q].id == id
      ensures !Affects(vs[p], ws[q])
    {
      if p < i {
        assert vs[p] in vs[..i] && ws[q] in ws;
      } else {
        assert vs[i] in [vs[i]] && ws[q] in ws[..j];
      }
    }
  }

  lemma {:induction false} OneMoreSpot(vs: seq<Vulnerability>, ws: seq<Watch>, hits: seq<Hit>, spots: seq<Spot>,
      i: nat, j: nat)
    requires InTurn(vs, ws, hits, spots) && Before(spots, i, j) && i < |vs| && j < |ws|
    requires NoneSooner(vs, ws, ws[j].id, i, j)
    ensures InTurn(vs, ws, hits + [Hit(ws[j], vs[i])], spots + [Spot(i, j)]) && Before(spots + [Spot(i, j)], i, j + 1)
  {
    hide NoneSooner;
  }

  /**
   `Match`: nothing for an advisory that is not confirmed, and else each watch identity
   that some admissible vulnerability affects, once, with the first that does, and no other.
   */
  method Match(timestamp: string -> bool, a: Advisory, ws: seq<Watch>) returns (hits: seq<Hit>)
    ensures Doubtful(timestamp, a) ==> hits == []
    ensures Proper(a.vulnerabilities, ws, hits)
    ensures !Doubtful(timestamp, a) ==> forall id :: Listed(hits, id) <==> Alerted(a.vulnerabilities, ws, id)
    ensures exists spots :: InTurn(a.vulnerabilities, ws, hits, spots)
  {
    hits := [];
    ghost var spots: seq<Spot> := [];
    ConfirmedExactly(timestamp, a);
    NothingFound(a.vulnerabilities, ws);
    hide GhsaId, Affected, Doubtful, InTurn, Confirmed, Alerted, Listed, Proper, Before;
    if !Confirmed(timestamp, a) {
      return;
    }
    var vs := a.vulnerabilities;
    var seen: set<string> := {};
    for i := 0 to |vs|
      invariant Proper(vs, ws, hits)
      invariant forall id :: id in seen <==> Listed(hits, id)
      invariant forall id :: Listed(hits, id) <==> Alerted(vs[..i], ws, id)
      invariant InTurn(vs, ws, hits, spots) && Before(spots, i, 0)
    {
      var v := vs[i];
      OneMoreVulnerability(vs, ws, i);
      if !Admissible(v) {
        NotAdmissible(v, ws);
        NextVulnerability(spots, i);
        continue;
      }
      hits, seen, spots := MatchOne(vs, i, v, ws, hits, seen, spots);
    }
    assert vs[..|vs|] == vs;
  }

  /** The inner loop: the watches one vulnerability affects that are not listed yet. */
  method MatchOne(ghost vs: seq<Vulnerability>, ghost n: nat, v: Vulnerability, ws: seq<Watch>, before: seq<Hit>,
      known: set<string>, ghost found: seq<Spot>)
    returns (hits: seq<Hit>, seen: set<string>, ghost spots: seq<Spot>)
    requires n < |vs| && v == vs[n] && Admissible(v) && Proper(vs, ws, before)
    requires forall id :: Listed(before, id) <==> Alerted(vs[..n], ws, id)
    requires InTurn(vs, ws, before, found) && Before(found, n, 0)
    requires forall id :: id in known <==> Listed(before, id)
    ensures Proper(vs, ws, hits)
    ensures forall id :: id in seen <==> Listed(hits, id)
    ensures forall id :: Listed(hits, id) <==> Listed(before, id) || Alerted([v], ws, id)
    ensures InTurn(vs, ws, hits, spots) && Before(spots, n + 1, 0)
  {
    hide Affected, InTurn, Alerted, Listed, Proper;
    hits, seen, spots := before, known, found;
    NothingFound([v], []);
    assert ws[..0] == [];
    for i := 0 to |ws|
      invariant Proper(vs, ws, hits)
      invariant forall id :: id in seen <==> Listed(hits, id)
      invariant forall id :: Listed(hits, id) <==> Listed(before, id) || Alerted([v], ws[..i], id)
      invariant InTurn(vs, ws, hits, spots) && Before(spots, n, i)
    {
      var w := ws[i];
      OneMoreWatch(v, ws, i);
      if w.id == "" || !w.active || w.ecosystem != v.ecosystem || w.package != v.package || w.id in seen {
        continue;
      }
      var affected, supported := VersionInRange(w.version, v.versionRange);
      if supported && affected {
        OneMoreHit(vs, ws, hits, Hit(w, v));
        NotYet(vs, ws, w.id, n, i);
        OneMoreSpot(vs, ws, hits, spots, n, i);
        hits, spots := hits + [Hit(w, v)], spots + [Spot(n, i)];
        seen := seen + {w.id};
      }
    }
    assert ws[..|ws|] == ws;
  }

  lemma NothingFound(vs: seq<Vulnerability>, ws: seq<Watch>)
    ensures Proper(vs, ws, []) && InTurn(vs, ws, [], []) && Before([], 0, 0)
    ensures forall id :: !Listed([], id) && !Alerted(vs, [], id) && !Alerted(vs[..0], ws, id)
  {
  }

  lemma NextVulnerability(spots: seq<Spot>, i: nat)
    requires Before(spots, i, 0)
    ensures Before(spots, i + 1, 0)
  {
  }

  lemma NotAdmissible(v: Vulnerability, ws: seq<Watch>)
    requires !Admissible(v)
    ensures forall id :: !Alerted([v], ws, id)
  {
  }

  lemma {:induction false} OneMoreVulnerability(vs: seq<Vulnerability>, ws: seq<Watch>, i: nat)
    requires i < |vs|
    ensures forall id :: Alerted(vs[..i + 1], ws, id) <==> Alerted(vs[..i], ws, id) || Alerted([vs[i]], ws, id)
  {
    hide Affects;
    assert vs[..i + 1] == vs[..i] + [vs[i]];
    forall id: string
      ensures Alerted(vs[..i + 1], ws, id) <==> Alerted(vs[..i], ws, id) || Alerted([vs[i]], ws, id)
    {
      if Alerted(vs[..i], ws, id) {
        var v, w :| v in vs[..i] && w in ws && w.id == id && Affects(v, w);
        assert v in vs[..i + 1];
      }
      if Alerted([vs[i]], ws, id) {
        var v, w :| v in [vs[i]] && w in ws && w.id == id && Affects(v, w);
        assert v in vs[..i + 1];
      }
    }
  }

  lemma {:induction false} OneMoreWatch(v: Vulnerability, ws: seq<Watch>, i: nat)
    requires i < |ws|
    ensures forall id ::
              Alerted([v], ws[..i + 1], id) <==> Alerted([v], ws[..i], id) || (ws[i].id == id && Affects(v, ws[i]))
  {
    hide Affects;
    assert ws[..i + 1] == ws[..i] + [ws[i]];
    forall id: string
      ensures Alerted([v], ws[..i + 1], id) <==> Alerted([v], ws[..i], id) || (ws[i].id == id && Affects(v, ws[i]))
    {
      if Alerted([v], ws[..i], id) {
        var u, w :| u in [v] && w in ws[..i] && w.id == id && Affects(u, w);
        assert w in ws[..i + 1];
      }
      if ws[i].id == id && Affects(v, ws[i]) {
        assert v in [v] && ws[i] in ws[..i + 1];
      }
    }
  }

  lemma {:induction false} OneMoreHit(vs: seq<Vulnerability>, ws: seq<Watch>, hits: seq<Hit>, h: Hit)
    requires Proper(vs, ws, hits) && h.watch in ws && h.vulnerability in vs && Affects(h.vulnerability, h.watch)
    requires !Listed(hits, h.watch.id)
    ensures Proper(vs, ws, hits + [h])
    ensures forall id :: Listed(hits + [h], id) <==> Listed(hits, id) || id == h.watch.id
  {
    hide Affects;
    var more := hits + [h];
    assert more[|hits|] == h;
    forall id: string
      ensures Listed(more, id) <==> Listed(hits, id) || id == h.watch.id
    {
      if Listed(hits, id) {
        var i :| 0 <= i < |hits| && hits[i].watch.id == id;
        assert more[i] == hits[i];
      }
    }
  }
}
