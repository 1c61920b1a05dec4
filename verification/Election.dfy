/**
 Election of a new primary proxy, dfc/vote.go: how a node answers a request for its
 vote, how the candidate counts the answers, and when two candidates can both win.

 Whether the voter has lost touch with the primary (`timedOut`) and whether it could
 write its configuration (`saved`) are inputs.
 */
module Election {
  import opened Wrappers
  import opened ClusterMap
  import Hrw

  datatype Reply = Yes | No | Failed

  /** A request for votes: the candidate and the map in its vote record. */
  datatype Request = Request(candidate: Id, smap: Smap)

  datatype Ballot = Ballot(reply: Reply, smap: Smap)

  /** A proxy that may be found next in line; there is more than one only when digests tie. */
  ghost predicate MayBeNext(m: Smap, primary: Id, id: Id) {
    Hrw.IsHeaviest(Hrw.Electable(m.pmap, m.nonElects, primary), id)
  }

  lemma NextIsUnique(m: Smap, primary: Id, a: Id, b: Id)
    requires Hrw.DistinctDigests(m.pmap) && MayBeNext(m, primary, a) && MayBeNext(m, primary, b)
    ensures a == b
  {
    var w := Hrw.Electable(m.pmap, m.nonElects, primary);
    Hrw.DistinctProxiesNoTies(m.pmap, m.nonElects, primary);
    Hrw.HeaviestIsTop(w, a);
    Hrw.HeaviestIsTop(w, b);
  }

  /** A proxy that registered as non-electable is never next in line, nor is the one to be replaced. */
  lemma NeverNext(m: Smap, primary: Id, id: Id)
    ensures MayBeNext(m, primary, id) ==> id in m.pmap && id != primary && id !in m.nonElects
  {}

  lemma NonElectableNeverNext(m: Smap, si: Snode, primary: Id)
    requires CanRegister(m, true, si)
    ensures !MayBeNext(Register(m, true, si, true), primary, si.id)
  {
    RegisterExactly(m, true, si, true);
    NeverNext(Register(m, true, si, true), primary, si.id);
  }

  /** The request passes the checks made before the voter looks at its own situation. */
  predicate Acceptable(self: Id, m: Smap, req: Request) {
    && req.candidate != "" && m.proxySI.Some? && req.candidate != m.proxySI.value.id
    && req.candidate in req.smap.pmap && req.smap.IsPresent(self, self in m.pmap)
  }

  /** What node `self` holding map `m` may answer, with the map it holds afterwards. */
  ghost predicate Votes(self: Id, m: Smap, req: Request, timedOut: bool, saved: bool, b: Ballot) {
    if !Acceptable(self, m, req) then b == Ballot(Failed, m)
    else
      var primary, s := m.proxySI.value.id, Synchronized(m, req.smap, saved, false);
      if s.err || !timedOut then b == Ballot(No, s.smap)
      else
        && b.smap == s.smap
        && match b.reply
           case Failed => !exists id :: MayBeNext(s.smap, primary, id)
           case Yes => MayBeNext(s.smap, primary, req.smap.pmap[req.candidate].id)
           case No => exists id :: MayBeNext(s.smap, primary, id) && id != req.smap.pmap[req.candidate].id
  }

  /** httpproxyvote together with voteOnProxy. */
  method HttpProxyVote(self: Id, owner: SmapOwner, candidate: Id, newsmap: SmapX, timedOut: bool, saved: bool)
    returns (reply: Reply)
    modifies owner
    ensures Votes(self, old(owner.smap.View()), Request(candidate, newsmap.View()), timedOut, saved,
                  Ballot(reply, owner.smap.View()))
  {
    var m := owner.smap;
    if candidate == "" || m.proxySI.None? {
      return Failed;
    }
    var primary := m.proxySI.value.id;
    var isProxy := self in m.pmap;
    if candidate == primary {
      return Failed;
    }
    if candidate !in newsmap.pmap || !newsmap.View().IsPresent(self, isProxy) {
      return Failed;
    }
    var psi := newsmap.pmap[candidate];
    var err := owner.Synchronize(newsmap, saved, false);
    if err {
      return No;
    }
    if !timedOut {
      return No;
    }
    var next, noNext := Hrw.HrwProxy(owner.smap.pmap, owner.smap.nonElects, primary);
    if noNext {
      return Failed;
    }
    assert MayBeNext(owner.smap.View(), primary, next.value);
    return if next.value == psi.id then Yes else No;
  }

  /** A voter keeps its map when it is offered nothing newer. */
  lemma VoteKeepsMap(self: Id, m: Smap, req: Request, timedOut: bool, saved: bool, b: Ballot)
    requires req.smap.version <= m.version && Votes(self, m, req, timedOut, saved, b)
    ensures b.smap == m
  {}

  ghost predicate MaySayYes(self: Id, m: Smap, req: Request, timedOut: bool, saved: bool) {
    exists after :: Votes(self, m, req, timedOut, saved, Ballot(Yes, after))
  }

  /** Exactly when a voter may say yes: by its own map, or by a newer one it can save. */
  lemma YesExactly(self: Id, m: Smap, req: Request, timedOut: bool, saved: bool)
    ensures MaySayYes(self, m, req, timedOut, saved) <==>
      && req.candidate != "" && m.proxySI.Some? && req.candidate != m.proxySI.value.id
      && req.candidate in req.smap.pmap
      && (if self in m.pmap then self in req.smap.pmap else self in req.smap.tmap)
      && timedOut && req.smap.IsValid()
      && (req.smap.version > m.version ==> saved)
      && MayBeNext(if req.smap.version > m.version then req.smap else m, m.proxySI.value.id,
                   req.smap.pmap[req.candidate].id)
  {
    var after := Synchronized(m, req.smap, saved, false).smap;
    assert MaySayYes(self, m, req, timedOut, saved) <==> Votes(self, m, req, timedOut, saved, Ballot(Yes, after));
  }

  /** A voter that is still in touch with the primary, or cannot take the offered map, says no to every request it accepts. */
  lemma NoExactly(self: Id, m: Smap, req: Request, timedOut: bool, saved: bool, b: Ballot)
    requires Votes(self, m, req, timedOut, saved, b) && Acceptable(self, m, req)
    ensures !timedOut || !req.smap.IsValid() || (req.smap.version > m.version && !saved) ==> b.reply == No
  {}

  // ---- counting

  datatype Answer = Answer(id: Id, reply: Reply)

  function CountYes(answers: seq<Answer>): nat {
    if answers == [] then 0
    else CountYes(answers[..|answers| - 1]) + if answers[|answers| - 1].reply.Yes? then 1 else 0
  }

  ghost function YesIds(answers: seq<Answer>): set<Id> {
    set a | a in answers && a.reply.Yes? :: a.id
  }

  ghost function VoterIds(answers: seq<Answer>): set<Id> {
    set a | a in answers :: a.id
  }

  ghost predicate OneEach(answers: seq<Answer>) {
    forall i, j :: 0 <= i < j < |answers| ==> answers[i].id != answers[j].id
  }

  /** electAmongProxies: a missing or failed answer counts against the candidate. */
  method ElectAmongProxies(answers: seq<Answer>) returns (winner: bool)
    ensures winner <==> 2 * CountYes(answers) > |answers| || |answers| == 0
  {
    var y, n := 0, 0;
    for i := 0 to |answers|
      invariant y == CountYes(answers[..i]) && y + n == i
    {
      assert answers[..i + 1][..i] == answers[..i];
      match answers[i].reply {
        case Yes => y := y + 1;
        case No => n := n + 1;
        case Failed => n := n + 1;
      }
    }
    assert answers[..|answers|] == answers;
    return y > n || y + n == 0;
  }

  lemma LastAnswer(front: seq<Answer>, last: Answer)
    ensures VoterIds(front + [last]) == VoterIds(front) + {last.id}
    ensures YesIds(front + [last]) == YesIds(front) + if last.reply.Yes? then {last.id} else {}
    ensures YesIds(front) <= VoterIds(front)
    ensures OneEach(front + [last]) ==> OneEach(front) && last.id !in VoterIds(front)
  {
    var all := front + [last];
    assert forall a :: a in all <==> a in front || a == last;
    assert forall i :: 0 <= i < |front| ==> all[i] == front[i];
    assert all[|front|] == last;
  }

  lemma {:induction false} CountsAreCardinalities(answers: seq<Answer>)
    requires OneEach(answers)
    ensures |YesIds(answers)| == CountYes(answers)
    ensures |VoterIds(answers)| == |answers|
  {
    if answers != [] {
      hide VoterIds, YesIds, OneEach;
      var k := |answers| - 1;
      var front, last := answers[..k], answers[k];
      assert answers == front + [last];
      LastAnswer(front, last);
      CountsAreCardinalities(front);
    }
  }

  // ---- two rounds

  /** A round: the candidate asked every other node of its own map, in which it is a proxy, and got one answer from each. */
  datatype Round = Round(candidate: Id, smap: Smap, answers: seq<Answer>)

  ghost predicate Counted(r: Round) {
    && r.candidate in r.smap.pmap && r.smap.pmap[r.candidate].id == r.candidate
    && OneEach(r.answers)
    && VoterIds(r.answers) == r.smap.Ids() - {r.candidate}
  }

  ghost predicate Wins(r: Round) {
    2 * CountYes(r.answers) > |r.answers| || |r.answers| == 0
  }

  /** Node `id`, holding `before`, may have said yes and then held `after`. */
  ghost predicate Cast(id: Id, before: Smap, r: Round, after: Smap) {
    exists timedOut, saved :: Votes(id, before, Request(r.candidate, r.smap), timedOut, saved, Ballot(Yes, after))
  }

  /**
   By counting alone, whatever maps anybody holds: if two candidates whose maps list the
   same nodes both win, some voter said yes to both, or each candidate said yes to the
   other.
   */
  lemma BothWinMeans(a: Round, b: Round)
    requires Counted(a) && Counted(b) && a.candidate != b.candidate && a.smap.Ids() == b.smap.Ids()
    requires Wins(a) && Wins(b)
    ensures
      || (exists id :: id in YesIds(a.answers) && id in YesIds(b.answers))
      || (b.candidate in YesIds(a.answers) && a.candidate in YesIds(b.answers))
  {
    CountsAreCardinalities(a.answers);
    CountsAreCardinalities(b.answers);
    YesAreVoters(a.answers);
    YesAreVoters(b.answers);
    var ids, ya, yb := a.smap.Ids(), YesIds(a.answers), YesIds(b.answers);
    Overlap(ids, ya, yb, a.candidate, b.candidate, |a.answers|, |b.answers|);
  }

  lemma YesAreVoters(answers: seq<Answer>)
    ensures YesIds(answers) <= VoterIds(answers)
  {}

  lemma Overlap(ids: set<Id>, ya: set<Id>, yb: set<Id>, a: Id, b: Id, na: nat, nb: nat)
    requires a in ids && b in ids && a != b
    requires ya <= ids - {a} && yb <= ids - {b} && |ids - {a}| == na && |ids - {b}| == nb
    requires 2 * |ya| > na || na == 0
    requires 2 * |yb| > nb || nb == 0
    ensures (exists id :: id in ya && id in yb) || (b in ya && a in yb)
  {
    assert na == |ids| - 1 && nb == |ids| - 1;
    SubsetCardinality({a, b}, ids);
    if ya !! yb {
      assert |ya + yb| == |ya| + |yb|;
      FullSubset(ya + yb, ids);
    }
  }

  lemma FullSubset(a: set<Id>, b: set<Id>)
    requires a <= b && |a| >= |b|
    ensures a == b
  {
    assert b == a + (b - a);
    assert |b - a| == 0;
  }

  lemma {:induction false} SubsetCardinality(a: set<Id>, b: set<Id>)
    requires a <= b
    ensures |a| <= |b|
  {
    if a != {} {
      var x :| x in a;
      SubsetCardinality(a - {x}, b - {x});
    }
  }

  /**
   What a round looks like from the maps: whoever said yes kept its map, and the
   candidate is next in line by its own map. Nothing is asked of those who did not say yes,
   nor of versions.
   */
  ghost predicate Steady(r: Round, maps: map<Id, Smap>) {
    && Counted(r)
    && (forall id :: id in YesIds(r.answers) ==>
          id in maps && Hrw.DistinctDigests(maps[id].pmap) && Cast(id, maps[id], r, maps[id]))
    && r.candidate in maps && Hrw.DistinctDigests(maps[r.candidate].pmap)
    && maps[r.candidate].proxySI.Some?
    && MayBeNext(maps[r.candidate], maps[r.candidate].proxySI.value.id, r.candidate)
  }

  lemma YesNamesCandidate(r: Round, maps: map<Id, Smap>, id: Id)
    requires Steady(r, maps) && id in YesIds(r.answers)
    ensures maps[id].proxySI.Some? && MayBeNext(maps[id], maps[id].proxySI.value.id, r.candidate)
  {
    var timedOut, saved :| Votes(id, maps[id], Request(r.candidate, r.smap), timedOut, saved, Ballot(Yes, maps[id]));
  }

  /** Two candidates whose maps list the same nodes do not both win while those who say yes keep their maps. */
  lemma OneWinner(a: Round, b: Round, maps: map<Id, Smap>)
    requires Steady(a, maps) && Steady(b, maps) && a.candidate != b.candidate
    requires a.smap.Ids() == b.smap.Ids()
    ensures !(Wins(a) && Wins(b))
  {
    if Wins(a) && Wins(b) {
      BothWinMeans(a, b);
      if id :| id in YesIds(a.answers) && id in YesIds(b.answers) {
        YesNamesCandidate(a, maps, id);
        YesNamesCandidate(b, maps, id);
        NextIsUnique(maps[id], maps[id].proxySI.value.id, a.candidate, b.candidate);
      } else {
        YesNamesCandidate(b, maps, a.candidate);
        NextIsUnique(maps[a.candidate], maps[a.candidate].proxySI.value.id, a.candidate, b.candidate);
      }
    }
  }

  // ---- when a voter says yes a second time

  /**
   A voter that said yes and still sees the same primary says yes to a request for another
   candidate exactly when that request brings a newer valid map, which it can save, and by
   which that candidate is next in line.
   */
  lemma SecondYes(self: Id, m0: Smap, first: Request, m1: Smap, second: Request, timedOut1: bool, saved1: bool,
                  timedOut: bool, saved: bool)
    requires Votes(self, m0, first, timedOut1, saved1, Ballot(Yes, m1)) && Hrw.DistinctDigests(m1.pmap)
    requires m1.proxySI.Some? && m1.proxySI.value.id == m0.proxySI.value.id
    requires second.candidate in second.smap.pmap
    requires second.smap.pmap[second.candidate].id != first.smap.pmap[first.candidate].id
    ensures MaySayYes(self, m1, second, timedOut, saved) <==>
      && Acceptable(self, m1, second) && timedOut && saved
      && second.smap.IsValid() && second.smap.version > m1.version
      && MayBeNext(second.smap, m1.proxySI.value.id, second.smap.pmap[second.candidate].id)
  {
    hide Hrw.DistinctDigests, MayBeNext;
    YesExactly(self, m1, second, timedOut, saved);
    var primary, next := m1.proxySI.value.id, second.smap.pmap[second.candidate].id;
    if MayBeNext(m1, primary, next) {
      NextIsUnique(m1, primary, first.smap.pmap[first.candidate].id, next);
    }
  }

  // ---- two winners

  ghost function ExampleMap(ts: seq<Snode>, p: Snode, a: Snode, b: Snode, nonElects: set<Id>, version: int): Smap
    requires |ts| == 3
  {
    Smap(map[ts[0].id := ts[0], ts[1].id := ts[1], ts[2].id := ts[2]], map[p.id := p, a.id := a, b.id := b],
         nonElects, Some(p), version)
  }

  ghost function ExampleAnswers(ts: seq<Snode>, p: Snode, other: Snode): seq<Answer>
    requires |ts| == 3
  {
    [Answer(ts[0].id, Yes), Answer(ts[1].id, Yes), Answer(ts[2].id, Yes), Answer(p.id, Failed), Answer(other.id, No)]
  }

  ghost predicate AllDifferent(ts: seq<Snode>, p: Snode, a: Snode, b: Snode) {
    && |ts| == 3 && p.id != a.id && p.id != b.id && a.id != b.id
    && (forall i, j :: 0 <= i < j < 3 ==> ts[i].id != ts[j].id)
    && (forall i :: 0 <= i < 3 ==> ts[i].id !in {p.id, a.id, b.id})
    && a.id != "" && b.id != "" && p.digest != a.digest && p.digest != b.digest && a.digest > b.digest > 0
  }

  lemma ExampleNext(ts: seq<Snode>, p: Snode, a: Snode, b: Snode, v1: int, v2: int)
    requires AllDifferent(ts, p, a, b)
    ensures MayBeNext(ExampleMap(ts, p, a, b, {}, v1), p.id, a.id)
    ensures MayBeNext(ExampleMap(ts, p, a, b, {a.id}, v2), p.id, b.id)
    ensures forall v, ne :: Hrw.DistinctDigests(ExampleMap(ts, p, a, b, ne, v).pmap)
  {
    var pmap := map[p.id := p, a.id := a, b.id := b];
    var w1, w2 := Hrw.Electable(pmap, {}, p.id), Hrw.Electable(pmap, {a.id}, p.id);
    assert w1.Keys == {a.id, b.id} && w2.Keys == {b.id};
    assert w1[a.id] > w1[b.id] && w2[b.id] > 0;
  }

  lemma ExampleRound(ts: seq<Snode>, p: Snode, a: Snode, b: Snode, m: Smap, candidate: Snode, other: Snode)
    requires AllDifferent(ts, p, a, b) && m == ExampleMap(ts, p, a, b, m.nonElects, m.version)
    requires (candidate == a && other == b) || (candidate == b && other == a)
    ensures var r := Round(candidate.id, m, ExampleAnswers(ts, p, other)); Counted(r) && Wins(r)
  {
    hide CountYes, VoterIds;
    var answers := ExampleAnswers(ts, p, other);
    ThreeYes(answers);
    ExampleVoters(ts, p, other);
    ExampleIds(ts, p, a, b, m.nonElects, m.version);
    var ids := {ts[0].id, ts[1].id, ts[2].id, p.id, other.id};
    assert m.Ids() == ids + {candidate.id} && candidate.id !in ids;
  }

  lemma ExampleVoters(ts: seq<Snode>, p: Snode, other: Snode)
    requires |ts| == 3
    ensures VoterIds(ExampleAnswers(ts, p, other)) == {ts[0].id, ts[1].id, ts[2].id, p.id, other.id}
  {
    var s := ExampleAnswers(ts, p, other);
    assert s[0] in s && s[1] in s && s[2] in s && s[3] in s && s[4] in s;
  }

  lemma ExampleIds(ts: seq<Snode>, p: Snode, a: Snode, b: Snode, nonElects: set<Id>, version: int)
    requires |ts| == 3
    ensures ExampleMap(ts, p, a, b, nonElects, version).Ids() == {ts[0].id, ts[1].id, ts[2].id, p.id, a.id, b.id}
  {}

  lemma CountLast(front: seq<Answer>, last: Answer)
    ensures CountYes(front + [last]) == CountYes(front) + if last.reply.Yes? then 1 else 0
  {
    assert (front + [last])[..|front|] == front;
  }

  lemma ThreeYes(s: seq<Answer>)
    requires |s| == 5 && s[0].reply.Yes? && s[1].reply.Yes? && s[2].reply.Yes? && !s[3].reply.Yes? && !s[4].reply.Yes?
    ensures CountYes(s) == 3
  {
    CountLast([], s[0]);
    CountLast([s[0]], s[1]);
    CountLast([s[0], s[1]], s[2]);
    CountLast([s[0], s[1], s[2]], s[3]);
    CountLast([s[0], s[1], s[2], s[3]], s[4]);
    hide CountYes;
    assert [] + [s[0]] == [s[0]];
    assert s == [s[0], s[1], s[2], s[3]] + [s[4]];
    assert [s[0], s[1], s[2]] + [s[3]] == [s[0], s[1], s[2], s[3]];
    assert [s[0], s[1]] + [s[2]] == [s[0], s[1], s[2]] && [s[0]] + [s[1]] == [s[0], s[1]];
  }

  /**
   A newer map of the same nodes, arriving with the second request, lets both candidates win:
   three targets say yes to each of them. Each candidate is next in line by its own map, and
   all answers are ones that the nodes give.
   */
  lemma NewerMapAllowsTwoWinners(ts: seq<Snode>, p: Snode, a: Snode, b: Snode, v1: int, v2: int)
    requires AllDifferent(ts, p, a, b) && v1 < v2
    ensures
      var m1, m2 := ExampleMap(ts, p, a, b, {}, v1), ExampleMap(ts, p, a, b, {a.id}, v2);
      var ra, rb := Round(a.id, m1, ExampleAnswers(ts, p, b)), Round(b.id, m2, ExampleAnswers(ts, p, a));
      && Counted(ra) && Counted(rb) && m1.Ids() == m2.Ids() && Hrw.DistinctDigests(m1.pmap)
      && MayBeNext(m1, p.id, a.id) && MayBeNext(m2, p.id, b.id)
      && (forall i :: 0 <= i < 3 ==> Cast(ts[i].id, m1, ra, m1) && Cast(ts[i].id, m1, rb, m2))
      && Votes(b.id, m2, Request(a.id, m1), true, true, Ballot(No, m2))
      && Votes(a.id, m1, Request(b.id, m2), false, true, Ballot(No, m2))
      && Wins(ra) && Wins(rb)
  {
    hide Hrw.DistinctDigests, MayBeNext, Counted, Wins;
    var m1, m2 := ExampleMap(ts, p, a, b, {}, v1), ExampleMap(ts, p, a, b, {a.id}, v2);
    ExampleNext(ts, p, a, b, v1, v2);
    ExampleRound(ts, p, a, b, m1, a, b);
    ExampleRound(ts, p, a, b, m2, b, a);
    var ra, rb := Round(a.id, m1, ExampleAnswers(ts, p, b)), Round(b.id, m2, ExampleAnswers(ts, p, a));
    forall i | 0 <= i < 3
      ensures Cast(ts[i].id, m1, ra, m1) && Cast(ts[i].id, m1, rb, m2)
    {
      assert Votes(ts[i].id, m1, Request(a.id, m1), true, true, Ballot(Yes, m1));
      assert Votes(ts[i].id, m1, Request(b.id, m2), true, true, Ballot(Yes, m2));
    }
  }
}
