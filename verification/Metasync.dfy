/**
 Replication of cluster-level metadata, dfc/metasync.go, with the receiving side of
 dfc/httpcommon.go, dfc/proxy.go and dfc/target.go.

 The primary remembers what it last sent for each tag (`last`) and which versions each
 node has confirmed (`revsmap`). Requests and replies may be lost, late or repeated;
 receivers install only what is newer than what they hold. Replicated objects are values
 here; that a published cluster map is never edited in place is shown in Published.
 */
module Metasync {
  import opened ClusterMap

  datatype Tag = SmapTag | BmdTag | TokenTag

  /** A replicated, versioned object. */
  datatype Rev =
    | SmapRev(smap: Smap)
    | BmdRev(bmdVersion: int)
    | TokenRev(tokenVersion: int)
  {
    function Tag(): Tag {
      match this
      case SmapRev(_) => SmapTag
      case BmdRev(_) => BmdTag
      case TokenRev(_) => TokenTag
    }

    function Version(): int {
      match this
      case SmapRev(m) => m.version
      case BmdRev(v) => v
      case TokenRev(v) => v
    }
  }

  type Payload = map<Tag, Rev>

  predicate WellTagged(p: Payload) {
    forall t :: t in p ==> p[t].Tag() == t
  }

  // ---- the receiving side

  datatype Node = Node(id: Id, isTarget: bool, smap: Smap, bmd: int)

  datatype Handled = Handled(node: Node, ok: bool)

  /** What extractSmap makes of the payload: nothing to do, a map to receive, or an error. */
  datatype Extracted = Nothing | Received(smap: Smap) | Refusal

  function ExtractSmap(node: Node, p: Payload): Extracted
    requires WellTagged(p)
  {
    if SmapTag !in p then Nothing
    else
      var newsmap := p[SmapTag].smap;
      if newsmap.version == node.smap.version then Nothing
      else if !newsmap.IsValid() then Refusal
      else if newsmap.version < node.smap.version && node.id !in node.smap.tmap then Refusal
      else Received(newsmap)
  }

  function ReceiveSmap(node: Node, newsmap: Smap, saved: bool): Handled {
    if node.isTarget && node.id !in newsmap.tmap then Handled(node, false)
    else
      var r := Synchronized(node.smap, newsmap, saved, true);
      Handled(node.(smap := r.smap), !r.err)
  }

  function ReceiveBmd(node: Node, p: Payload): Handled
    requires WellTagged(p)
  {
    if BmdTag !in p then Handled(node, true)
    else
      var v := p[BmdTag].bmdVersion;
      if v <= node.bmd then Handled(node, v == node.bmd)
      else Handled(node.(bmd := v), true)
  }

  /** metasyncHandlerPut of a proxy or a target. */
  function HandlePut(node: Node, p: Payload, saved: bool): Handled
    requires WellTagged(p)
  {
    if !node.isTarget && node.smap.IsPrimary(node.id) then Handled(node, false)
    else
      match ExtractSmap(node, p)
      case Refusal => Handled(node, false)
      case Nothing => ReceiveBmd(node, p)
      case Received(newsmap) =>
        var h := ReceiveSmap(node, newsmap, saved);
        if !h.ok then h else ReceiveBmd(h.node, p)
  }

  function Installed(node: Node, t: Tag): int
    requires t != TokenTag
  {
    if t == SmapTag then node.smap.version else node.bmd
  }

  ghost predicate Holds(node: Node, p: Payload) {
    forall t :: t in p && t != TokenTag ==> p[t].Version() <= Installed(node, t)
  }

  ghost predicate NoOlder(a: Node, b: Node) {
    a.smap.version <= b.smap.version && a.bmd <= b.bmd
  }

  /** A confirmed request means the node holds at least what was sent, and nothing was lowered. */
  lemma ConfirmedMeansInstalled(node: Node, p: Payload, saved: bool)
    requires WellTagged(p)
    ensures var h := HandlePut(node, p, saved);
            && NoOlder(node, h.node)
            && (h.ok ==> Holds(h.node, p))
  {
    var h := HandlePut(node, p, saved);
    if h.ok {
      forall t | t in p && t != TokenTag ensures p[t].Version() <= Installed(h.node, t) {
        assert p[t].Tag() == t;
      }
    }
  }

  /** The map in the payload is newer than the node's and the node can take it. */
  predicate TakesMap(node: Node, p: Payload, saved: bool)
    requires WellTagged(p)
  {
    && !(!node.isTarget && node.smap.IsPrimary(node.id))
    && SmapTag in p && p[SmapTag].smap.version > node.smap.version && p[SmapTag].smap.IsValid()
    && (node.isTarget ==> node.id in p[SmapTag].smap.tmap) && saved
  }

  /**
   Exactly when a request is confirmed: by a node that is not the primary, if nothing in it is older
   than what is held and a newer map can be taken. The map is taken whenever it can be, confirmed or
   not; bucket metadata is taken with a confirmation only, which leaves the greater version.
   */
  lemma HandlePutExactly(node: Node, p: Payload, saved: bool)
    requires WellTagged(p)
    ensures
      var h := HandlePut(node, p, saved);
      && (h.ok <==>
           && !(!node.isTarget && node.smap.IsPrimary(node.id))
           && (SmapTag in p ==> p[SmapTag].Version() == node.smap.version || TakesMap(node, p, saved))
           && (BmdTag in p ==> p[BmdTag].Version() >= node.bmd))
      && h.node.smap == (if TakesMap(node, p, saved) then p[SmapTag].smap else node.smap)
      && (h.ok ==> h.node.bmd == if BmdTag in p && p[BmdTag].Version() > node.bmd then p[BmdTag].Version() else node.bmd)
      && (!h.ok ==> h.node.bmd == node.bmd)
      && h.node.id == node.id && h.node.isTarget == node.isTarget
  {
    assert SmapTag in p ==> p[SmapTag].Tag() == SmapTag && p[SmapTag].SmapRev?;
    assert BmdTag in p ==> p[BmdTag].Tag() == BmdTag && p[BmdTag].BmdRev?;
    if SmapTag in p {
      SynchronizedInstalls(node.smap, p[SmapTag].smap, saved, true);
    }
  }

  // ---- the network between the primary and everybody else

  datatype CallResult = Ok | Refused | Failed

  ghost predicate Later(a: map<Id, Node>, b: map<Id, Node>) {
    && a.Keys <= b.Keys
    && forall d :: d in a ==> NoOlder(a[d], b[d])
  }

  ghost predicate AckedHold(acked: set<(Id, Payload)>, nodes: map<Id, Node>) {
    forall d, p :: (d, p) in acked ==> d in nodes && Holds(nodes[d], p)
  }

  lemma AckedStillHold(acked: set<(Id, Payload)>, a: map<Id, Node>, b: map<Id, Node>)
    requires AckedHold(acked, a) && Later(a, b)
    ensures AckedHold(acked, b)
  {
    forall d, p | (d, p) in acked ensures d in b && Holds(b[d], p) {
      assert NoOlder(a[d], b[d]);
    }
  }

  class Network {
    const self: Id
    /** The map held by the primary's own owner. */
    var smap: Smap
    var nodes: map<Id, Node>
    /** Requests that were put on the wire; any of them may arrive later, or more than once. */
    var sent: set<(Id, Payload)>
    /** Requests that the receiver answered with success. */
    var acked: set<(Id, Payload)>

    ghost predicate Valid()
      reads this
    {
      && (forall d, p :: (d, p) in sent ==> WellTagged(p))
      && AckedHold(acked, nodes)
    }

    constructor (self: Id, smap: Smap, nodes: map<Id, Node>)
      ensures Valid() && this.self == self && this.smap == smap && this.nodes == nodes
    {
      this.self, this.smap, this.nodes := self, smap, nodes;
      sent, acked := {}, {};
    }

    /** One request arrives at its node, which may or may not manage to save the map. */
    method Deliver(d: Id, p: Payload, saved: bool)
      requires Valid() && (d, p) in sent && d in nodes
      modifies this
      ensures Valid() && Later(old(nodes), nodes)
      ensures old(acked) <= acked && sent == old(sent) && smap == old(smap)
    {
      ConfirmedMeansInstalled(nodes[d], p, saved);
      var h := HandlePut(nodes[d], p, saved);
      ghost var before := nodes;
      nodes := nodes[d := h.node];
      AckedStillHold(acked, before, nodes);
      if h.ok {
        acked := acked + {(d, p)};
      }
    }

    /** Anything that the rest of the cluster may do in the meantime, without lowering a version. */
    method Evolve()
      requires Valid()
      modifies this
      ensures Valid() && Later(old(nodes), nodes)
      ensures old(acked) <= acked && sent == old(sent) && smap.version >= old(smap).version
    {
      var steps :| steps >= 0;
      for i := 0 to steps
        invariant Valid() && Later(old(nodes), nodes)
        invariant old(acked) <= acked && sent == old(sent) && smap.version >= old(smap).version
      {
        if {
          case sent != {} =>
            var m :| m in sent;
            if m.0 in nodes {
              var saved: bool := *;
              Deliver(m.0, m.1, saved);
            }
          case true =>  // a node joins, or takes on a newer map or bucket metadata by another road
            var n: Node := *;
            if n.id !in nodes || (n.smap.version >= nodes[n.id].smap.version && n.bmd >= nodes[n.id].bmd) {
              ghost var before := nodes;
              nodes := nodes[n.id := n];
              AckedStillHold(acked, before, nodes);
            }
          case true =>  // the primary's own map moves on
            var m: Smap := *;
            if m.version >= smap.version {
              smap := m;
            }
        }
      }
    }

    /** A call to every server but oneself; a reply of success can only come from a confirmed request. */
    method Broadcast(servers: set<Id>, p: Payload) returns (res: map<Id, CallResult>)
      requires Valid() && WellTagged(p)
      modifies this
      ensures Valid() && Later(old(nodes), nodes)
      ensures old(acked) <= acked && smap.version >= old(smap).version
      ensures res.Keys == servers - {self}
      ensures forall d :: d in res && res[d].Ok? ==> (d, p) in acked
    {
      sent := sent + set d | d in servers && d != self :: (d, p);
      Evolve();
      res := map[];
      var todo := servers - {self};
      while todo != {}
        invariant todo <= servers - {self}
        invariant res.Keys == servers - {self} - todo
        invariant forall d :: d in res && res[d].Ok? ==> (d, p) in acked
        decreases |todo|
      {
        var d :| d in todo;
        todo := todo - {d};
        var r: CallResult := *;
        res := res[d := if r.Ok? && (d, p) !in acked then Failed else r];
      }
    }
  }

  // ---- the sending side

  /** What the pairs amount to on the wire: the last one given for a tag is the one that counts. */
  function PayloadOf(pairs: seq<Rev>): Payload {
    if pairs == [] then map[]
    else
      var r := pairs[|pairs| - 1];
      PayloadOf(pairs[..|pairs| - 1])[r.Tag() := r]
  }

  lemma {:induction false} PayloadWellTagged(pairs: seq<Rev>)
    ensures WellTagged(PayloadOf(pairs))
    ensures forall t :: t in PayloadOf(pairs) ==> PayloadOf(pairs)[t] in pairs
  {
    if pairs != [] {
      PayloadWellTagged(pairs[..|pairs| - 1]);
    }
  }

  function Versions(p: Payload): map<Tag, int> {
    map t | t in p :: p[t].Version()
  }

  function LVersion(last: Payload, t: Tag): int {
    if t in last then last[t].Version() else 0
  }

  ghost predicate NoLesser(a: Payload, b: Payload) {
    forall t :: t in a ==> t in b && a[t].Version() <= b[t].Version()
  }

  /** A node's row of confirmed versions: none is ahead of what was sent, nor of what is installed. */
  ghost predicate RowOk(row: map<Tag, int>, d: Id, last: Payload, nodes: map<Id, Node>) {
    forall t :: t in row ==>
      && t in last && row[t] <= last[t].Version()
      && (t != TokenTag ==> d in nodes && row[t] <= Installed(nodes[d], t))
  }

  ghost predicate RowsOk(revsmap: map<Id, map<Tag, int>>, last: Payload, nodes: map<Id, Node>) {
    forall d :: d in revsmap ==> RowOk(revsmap[d], d, last, nodes)
  }

  lemma RowsStayOk(revsmap: map<Id, map<Tag, int>>, last: Payload, nodes: map<Id, Node>, last': Payload, nodes': map<Id, Node>)
    requires RowsOk(revsmap, last, nodes) && NoLesser(last, last') && Later(nodes, nodes')
    ensures RowsOk(revsmap, last', nodes')
  {
    forall d | d in revsmap ensures RowOk(revsmap[d], d, last', nodes') {
      assert RowOk(revsmap[d], d, last, nodes);
      assert d in nodes ==> NoOlder(nodes[d], nodes'[d]);
    }
  }

  /** Confirmation of exactly what is in `last` may be written into a node's row. */
  lemma ConfirmedRowOk(row: map<Tag, int>, d: Id, p: Payload, last: Payload, nodes: map<Id, Node>)
    requires RowOk(row, d, last, nodes)
    requires forall t :: t in p ==> t in last && last[t] == p[t]
    requires d in nodes && Holds(nodes[d], p)
    ensures RowOk(row + Versions(p), d, last, nodes)
  {}

  /** Row `d` shows exactly the versions in `p`. */
  ghost predicate Shows(revsmap: map<Id, map<Tag, int>>, d: Id, p: Payload) {
    d in revsmap && forall t :: t in p ==> t in revsmap[d] && revsmap[d][t] == p[t].Version()
  }

  ghost function Behind(revsmap: map<Id, map<Tag, int>>, ids: set<Id>, last: Payload): set<Id> {
    set d | d in ids && !Shows(revsmap, d, last)
  }

  /** `b` is `a` with an empty row for each of `ids` that had none. */
  ghost predicate Extends(a: map<Id, map<Tag, int>>, b: map<Id, map<Tag, int>>, ids: set<Id>) {
    && b.Keys == a.Keys + ids
    && (forall d :: d in a ==> b[d] == a[d])
    && (forall d :: d in b && d !in a ==> b[d] == map[])
  }

  /** The nodes that have answered like this, `todo` not yet looked at. */
  ghost function Answered(res: map<Id, CallResult>, todo: set<Id>, r: CallResult): set<Id> {
    set d | d in res && d !in todo && res[d] == r
  }

  function RowOf(revsmap: map<Id, map<Tag, int>>, d: Id): map<Tag, int> {
    if d in revsmap then revsmap[d] else map[]
  }

  /** `b` is `a` with the versions in `p` written into the rows of `who`. */
  ghost predicate Recorded(a: map<Id, map<Tag, int>>, b: map<Id, map<Tag, int>>, who: set<Id>, p: Payload) {
    && b.Keys == a.Keys + who
    && (forall d :: d in who ==> b[d] == RowOf(a, d) + Versions(p))
    && (forall d :: d in b && d !in who ==> b[d] == a[d])
  }

  lemma RecordedNone(a: map<Id, map<Tag, int>>, p: Payload)
    ensures Recorded(a, a, {}, p)
  {}

  lemma RecordedOneMore(a: map<Id, map<Tag, int>>, b: map<Id, map<Tag, int>>, who: set<Id>, p: Payload, d: Id)
    requires Recorded(a, b, who, p) && d !in who
    ensures Recorded(a, b[d := RowOf(b, d) + Versions(p)], who + {d}, p)
  {
    assert RowOf(b, d) == RowOf(a, d);
  }

  /** The loop over replies, `todo` not yet looked at. */
  ghost predicate TakenIn(res: map<Id, CallResult>, todo: set<Id>, a: map<Id, map<Tag, int>>, b: map<Id, map<Tag, int>>,
                          failed: nat, refused: set<Id>, p: Payload) {
    && Recorded(a, b, Answered(res, todo, Ok), p)
    && refused == Answered(res, todo, Refused) && failed == |Answered(res, todo, Failed)|
  }

  lemma TakeNone(res: map<Id, CallResult>, a: map<Id, map<Tag, int>>, p: Payload)
    ensures TakenIn(res, res.Keys, a, a, 0, {}, p)
  {
    assert forall r :: Answered(res, res.Keys, r) == {};
  }

  lemma AnsweredStep(res: map<Id, CallResult>, todo: set<Id>, d: Id, r: CallResult)
    requires d in todo && todo <= res.Keys
    ensures Answered(res, todo - {d}, r) == Answered(res, todo, r) + if res[d] == r then {d} else {}
    ensures d !in Answered(res, todo, r)
  {}

  lemma TakeOne(res: map<Id, CallResult>, todo: set<Id>, d: Id, a: map<Id, map<Tag, int>>, b: map<Id, map<Tag, int>>,
                failed: nat, refused: set<Id>, p: Payload)
    requires TakenIn(res, todo, a, b, failed, refused, p) && d in todo && todo <= res.Keys
    ensures |todo - {d}| < |todo|
    ensures
      match res[d]
      case Ok => TakenIn(res, todo - {d}, a, b[d := RowOf(b, d) + Versions(p)], failed, refused, p)
      case Refused => TakenIn(res, todo - {d}, a, b, failed, refused + {d}, p)
      case Failed => TakenIn(res, todo - {d}, a, b, failed + 1, refused, p)
  {
    hide Answered, Recorded, RowOf, Versions;
    AnsweredStep(res, todo, d, Ok);
    AnsweredStep(res, todo, d, Refused);
    AnsweredStep(res, todo, d, Failed);
    if res[d] == Ok {
      RecordedOneMore(a, b, Answered(res, todo, Ok), p, d);
    }
  }

  lemma TakeAll(res: map<Id, CallResult>, a: map<Id, map<Tag, int>>, b: map<Id, map<Tag, int>>,
                failed: nat, refused: set<Id>, p: Payload)
    requires TakenIn(res, {}, a, b, failed, refused, p)
    ensures refused == set d | d in res && res[d].Refused?
    ensures failed == |set d | d in res && res[d].Failed?|
    ensures Recorded(a, b, (set d | d in res && res[d].Ok?), p)
  {
    hide Recorded;
    assert Answered(res, {}, Ok) == set d | d in res && res[d].Ok?;
    assert Answered(res, {}, Failed) == set d | d in res && res[d].Failed?;
  }

  lemma WriteTwice(row: map<Tag, int>, v: map<Tag, int>)
    ensures row + v + v == row + v
  {}

  lemma RowKept(a: map<Id, map<Tag, int>>, b: map<Id, map<Tag, int>>, who: set<Id>, p: Payload, d: Id)
    requires Recorded(a, b, who, p)
    ensures RowOf(b, d) == if d in who then RowOf(a, d) + Versions(p) else RowOf(a, d)
    ensures d in b ==> RowOf(b, d) == b[d]
  {}

  lemma RecordedTwice(a: map<Id, map<Tag, int>>, b: map<Id, map<Tag, int>>, c: map<Id, map<Tag, int>>,
                      x: set<Id>, y: set<Id>, p: Payload)
    requires Recorded(a, b, x, p) && Recorded(b, c, y, p)
    ensures Recorded(a, c, x + y, p)
  {
    hide Versions, RowOf;
    assert a.Keys + x + y == a.Keys + (x + y);
    forall d | d in x + y
      ensures c[d] == RowOf(a, d) + Versions(p)
    {
      WriteTwice(RowOf(a, d), Versions(p));
      RowKept(a, b, x, p, d);
    }
  }

  lemma RecordedShows(a: map<Id, map<Tag, int>>, b: map<Id, map<Tag, int>>, who: set<Id>, p: Payload)
    requires Recorded(a, b, who, p)
    ensures forall d :: d in who ==> Shows(b, d, p)
    ensures forall d, q :: d !in who && Shows(a, d, q) ==> Shows(b, d, q)
  {}

  ghost predicate RowShows(row: map<Tag, int>, p: Payload) {
    forall t :: t in p ==> t in row && row[t] == p[t].Version()
  }

  /**
   A node that has confirmed a payload is up to date exactly when, before, it had
   confirmed everything that the payload does not carry.
   */
  lemma UpToDateExactly(row: map<Tag, int>, last: Payload, p: Payload)
    ensures RowShows(row + Versions(p), last + p) <==> RowShows(row, last - p.Keys)
  {
    var row', all, rest := row + Versions(p), last + p, last - p.Keys;
    forall t
      ensures t in all <==> t in p || t in rest
      ensures t in p ==> t in row' && row'[t] == all[t].Version()
      ensures t in rest ==> (t in row' <==> t in row) && (t in row ==> row'[t] == row[t]) && all[t] == rest[t]
    {}
  }

  /** So a node that was never heard of is up to date exactly when the payload carries every tag ever sent. */
  lemma JoinerUpToDateExactly(last: Payload, p: Payload)
    ensures RowShows(map[] + Versions(p), last + p) <==> last.Keys <= p.Keys
  {
    UpToDateExactly(map[], last, p);
    if RowShows(map[], last - p.Keys) {
      forall t | t in last
        ensures t in p
      {
        assert t !in p ==> t in last - p.Keys;
      }
    }
  }

  /**
   What a registration does: the map alone is sent, so that a joining node confirms it and
   nothing else, with bucket metadata known to everybody before.
   */
  lemma JoinerLacksBuckets(m0: Smap, m: Smap, bmd: int)
    requires m0.version < m.version
    ensures
      var last := map[SmapTag := SmapRev(m0), BmdTag := BmdRev(bmd)];
      var p := PayloadOf(Wanted([SmapRev(m)], last, true));
      p == map[SmapTag := SmapRev(m)] && !RowShows(map[] + Versions(p), last + p)
  {
    var last := map[SmapTag := SmapRev(m0), BmdTag := BmdRev(bmd)];
    var pairs := [SmapRev(m)];
    assert pairs[..0] == [];
    assert Wanted(pairs, last, true) == pairs;
    var p := PayloadOf(pairs);
    assert pairs[..|pairs| - 1] == [] && PayloadOf([]) == map[];
    assert pairs[|pairs| - 1].Tag() == SmapTag;
    assert p == map[][SmapTag := SmapRev(m)];
    JoinerUpToDateExactly(last, p);
    assert BmdTag in last && BmdTag !in p;
  }

  lemma DoneSoFar(ids: set<Id>, todo: set<Id>)
    ensures todo == ids ==> ids - todo == {}
    ensures todo == {} ==> ids - todo == ids
  {}

  lemma OneMoreDone(ids: set<Id>, todo: set<Id>, id: Id)
    requires id in todo && todo <= ids
    ensures ids - (todo - {id}) == ids - todo + {id}
    ensures |todo - {id}| < |todo|
  {}

  lemma BehindNone(rows: map<Id, map<Tag, int>>, last: Payload)
    ensures Behind(rows, {}, last) == {} && Extends(rows, rows, {})
  {}

  lemma BehindOneMore(rows: map<Id, map<Tag, int>>, rows': map<Id, map<Tag, int>>, seen: set<Id>, id: Id, last: Payload)
    requires id !in seen && Extends(rows, rows', seen)
    ensures id in rows' <==> id in rows
    ensures id !in rows ==> !Shows(rows, id, last)
    ensures Extends(rows, if id in rows' then rows' else rows'[id := map[]], seen + {id})
    ensures id in rows' ==> (Shows(rows', id, last) <==> Shows(rows, id, last))
    ensures Behind(rows, seen + {id}, last) ==
            Behind(rows, seen, last) + if Shows(rows, id, last) then {} else {id}
    ensures id !in Behind(rows, seen, last)
  {}

  lemma BehindInTwoSteps(rows: map<Id, map<Tag, int>>, rows': map<Id, map<Tag, int>>, t: set<Id>, p: set<Id>, last: Payload)
    requires Extends(rows, rows', t)
    ensures Behind(rows, t, last) + Behind(rows', p, last) == Behind(rows, t + p, last)
  {
    forall d | d in p && d !in t ensures Shows(rows', d, last) <==> Shows(rows, d, last) {}
    forall d | d in p && d in rows ensures Shows(rows', d, last) <==> Shows(rows, d, last) {}
  }

  /** Step 1 of doSync: what is worth sending, given what was last sent and whether there are newcomers. */
  function Wanted(pairs: seq<Rev>, last: Payload, newcomers: bool): seq<Rev> {
    if pairs == [] then []
    else
      var r := pairs[|pairs| - 1];
      var lv := LVersion(last, r.Tag());
      Wanted(pairs[..|pairs| - 1], last, newcomers) +
      if lv < r.Version() || (lv == r.Version() && newcomers) then [r] else []
  }

  lemma {:induction false} WantedNotOlder(pairs: seq<Rev>, last: Payload, newcomers: bool)
    ensures forall r :: r in Wanted(pairs, last, newcomers) ==> r in pairs && r.Version() >= LVersion(last, r.Tag())
  {
    if pairs != [] {
      WantedNotOlder(pairs[..|pairs| - 1], last, newcomers);
    }
  }

  /** Sending never lowers the version of a tag. */
  lemma WantedOnlyRaises(pairs: seq<Rev>, last: Payload, newcomers: bool)
    requires WellTagged(last)
    ensures var p := PayloadOf(Wanted(pairs, last, newcomers));
            WellTagged(last + p) && NoLesser(last, last + p)
  {
    var sel := Wanted(pairs, last, newcomers);
    WantedNotOlder(pairs, last, newcomers);
    PayloadWellTagged(sel);
  }

  // ---- what is sent, told without the loop

  /** Newer than what was last sent for its tag (0 if nothing was), or equal to it while there are newcomers. */
  ghost predicate Due(r: Rev, last: Payload, newcomers: bool) {
    var v := if r.Tag() in last then last[r.Tag()].Version() else 0;
    r.Version() > v || (r.Version() == v && newcomers)
  }

  ghost predicate DueAt(pairs: seq<Rev>, i: int, t: Tag, last: Payload, newcomers: bool) {
    0 <= i < |pairs| && pairs[i].Tag() == t && Due(pairs[i], last, newcomers)
  }

  ghost predicate LastDue(pairs: seq<Rev>, i: int, t: Tag, last: Payload, newcomers: bool) {
    DueAt(pairs, i, t, last, newcomers) && forall j :: i < j ==> !DueAt(pairs, j, t, last, newcomers)
  }

  /** The payload has the tag iff a pair of that tag is due, and then it has the last of these. */
  ghost predicate SendsTag(p: Payload, t: Tag, pairs: seq<Rev>, last: Payload, newcomers: bool) {
    && (t in p <==> exists i :: DueAt(pairs, i, t, last, newcomers))
    && (t in p ==> exists i :: LastDue(pairs, i, t, last, newcomers) && p[t] == pairs[i])
  }

  ghost predicate Sends(p: Payload, pairs: seq<Rev>, last: Payload, newcomers: bool) {
    forall t :: SendsTag(p, t, pairs, last, newcomers)
  }

  lemma {:induction false} WantedSends(pairs: seq<Rev>, last: Payload, newcomers: bool)
    ensures Sends(PayloadOf(Wanted(pairs, last, newcomers)), pairs, last, newcomers)
  {
    hide Due, DueAt, SendsTag, PayloadOf;
    if pairs == [] {
      SendsNothing(last, newcomers);
    } else {
      var n := |pairs| - 1;
      WantedSends(pairs[..n], last, newcomers);
      WantedStep(pairs, last, newcomers);
      var q := PayloadOf(Wanted(pairs[..n], last, newcomers));
      forall t
        ensures SendsTag(PayloadOf(Wanted(pairs, last, newcomers)), t, pairs, last, newcomers)
      {
        assert SendsTag(q, t, pairs[..n], last, newcomers);
        if Due(pairs[n], last, newcomers) && t == pairs[n].Tag() {
          SendsThis(q, pairs, last, newcomers);
        } else {
          SendsOther(q, PayloadOf(Wanted(pairs, last, newcomers)), t, pairs, last, newcomers);
        }
      }
    }
  }

  lemma SendsNothing(last: Payload, newcomers: bool)
    ensures Sends(PayloadOf([]), [], last, newcomers)
  {}

  lemma SendsThis(q: Payload, pairs: seq<Rev>, last: Payload, newcomers: bool)
    requires pairs != [] && Due(pairs[|pairs| - 1], last, newcomers)
    ensures
      var r := pairs[|pairs| - 1];
      SendsTag(q[r.Tag() := r], r.Tag(), pairs, last, newcomers)
  {
    hide Due;
    var n := |pairs| - 1;
    assert LastDue(pairs, n, pairs[n].Tag(), last, newcomers);
  }

  lemma SendsOther(q: Payload, p: Payload, t: Tag, pairs: seq<Rev>, last: Payload, newcomers: bool)
    requires pairs != [] && !(t == pairs[|pairs| - 1].Tag() && Due(pairs[|pairs| - 1], last, newcomers))
    requires SendsTag(q, t, pairs[..|pairs| - 1], last, newcomers)
    requires (t in p <==> t in q) && (t in p ==> p[t] == q[t])
    ensures SendsTag(p, t, pairs, last, newcomers)
  {
    hide Due;
    var front := pairs[..|pairs| - 1];
    assert forall i :: DueAt(front, i, t, last, newcomers) <==> DueAt(pairs, i, t, last, newcomers);
    if t in q {
      var i :| LastDue(front, i, t, last, newcomers) && q[t] == front[i];
      assert LastDue(pairs, i, t, last, newcomers) && pairs[i] == front[i];
    }
  }

  lemma WantedStep(pairs: seq<Rev>, last: Payload, newcomers: bool)
    requires pairs != []
    ensures
      var n := |pairs| - 1;
      var q := PayloadOf(Wanted(pairs[..n], last, newcomers));
      PayloadOf(Wanted(pairs, last, newcomers)) == if Due(pairs[n], last, newcomers) then q[pairs[n].Tag() := pairs[n]] else q
  {
    hide PayloadOf;
    var n := |pairs| - 1;
    var w := Wanted(pairs[..n], last, newcomers);
    PayloadLast(w, pairs[n]);
    assert w + [] == w;
  }

  lemma PayloadLast(w: seq<Rev>, r: Rev)
    ensures PayloadOf(w + [r]) == PayloadOf(w)[r.Tag() := r]
  {
    assert (w + [r])[..|w|] == w;
  }

  /** Everything asked for is sent, or something newer already was. */
  ghost predicate AllKnown(pairs: seq<Rev>, last: Payload) {
    forall i :: 0 <= i < |pairs| && pairs[i].Version() > 0 ==>
      pairs[i].Tag() in last && last[pairs[i].Tag()].Version() >= pairs[i].Version()
  }

  /** No pair that is due is followed by an older one that is the last due of its tag. */
  ghost predicate NoStepBack(pairs: seq<Rev>, last: Payload, newcomers: bool) {
    forall i, j, t :: DueAt(pairs, i, t, last, newcomers) && LastDue(pairs, j, t, last, newcomers) && pairs[i].Version() > 0 ==>
      pairs[i].Version() <= pairs[j].Version()
  }

  /** After a synchronization nothing asked for is missing, exactly if no tag was given twice with a step back. */
  lemma KnownExactly(p: Payload, pairs: seq<Rev>, last: Payload, newcomers: bool)
    requires Sends(p, pairs, last, newcomers)
    ensures AllKnown(pairs, last + p) <==> NoStepBack(pairs, last, newcomers)
  {
    if NoStepBack(pairs, last, newcomers) {
      forall i | 0 <= i < |pairs| && pairs[i].Version() > 0
        ensures pairs[i].Tag() in last + p && (last + p)[pairs[i].Tag()].Version() >= pairs[i].Version()
      {
        var t := pairs[i].Tag();
        assert SendsTag(p, t, pairs, last, newcomers);
        assert Due(pairs[i], last, newcomers) <==> DueAt(pairs, i, t, last, newcomers);
        if t in p {
          var j :| LastDue(pairs, j, t, last, newcomers) && p[t] == pairs[j];
        }
      }
    }
    if AllKnown(pairs, last + p) {
      forall i, j, t | DueAt(pairs, i, t, last, newcomers) && LastDue(pairs, j, t, last, newcomers) && pairs[i].Version() > 0
        ensures pairs[i].Version() <= pairs[j].Version()
      {
        assert SendsTag(p, t, pairs, last, newcomers);
        var k :| LastDue(pairs, k, t, last, newcomers) && p[t] == pairs[k];
        assert j == k;
      }
    }
  }

  /** Callers give each tag once, and then nothing is missing. */
  lemma OneEachIsKnown(p: Payload, pairs: seq<Rev>, last: Payload, newcomers: bool)
    requires Sends(p, pairs, last, newcomers)
    requires forall i, j :: 0 <= i < j < |pairs| ==> pairs[i].Tag() != pairs[j].Tag()
    ensures AllKnown(pairs, last + p)
  {
    hide Due;
    KnownExactly(p, pairs, last, newcomers);
  }

  /** A tag given twice with a step back: the older version is sent and remembered. */
  lemma StepBackLoses(p: Payload)
    requires Sends(p, [BmdRev(7), BmdRev(6)], map[BmdTag := BmdRev(5)], false)
    ensures p == map[BmdTag := BmdRev(6)]
  {
    var pairs, last := [BmdRev(7), BmdRev(6)], map[BmdTag := BmdRev(5)];
    assert LastDue(pairs, 1, BmdTag, last, false);
    forall t | t in p
      ensures t == BmdTag
    {
      assert SendsTag(p, t, pairs, last, false);
    }
    assert SendsTag(p, BmdTag, pairs, last, false);
    assert DueAt(pairs, 1, BmdTag, last, false);
    var i :| LastDue(pairs, i, BmdTag, last, false) && p[BmdTag] == pairs[i];
    assert i == 1;
  }

  lemma EmptyRowOk(revsmap: map<Id, map<Tag, int>>, d: Id, last: Payload, nodes: map<Id, Node>)
    requires RowsOk(revsmap, last, nodes)
    ensures RowsOk(revsmap[d := map[]], last, nodes)
  {}

  datatype Work = Reset | Pairs(pairs: seq<Rev>)

  /** No cluster map among the pairs is from the future. */
  predicate NotAhead(pairs: seq<Rev>, smapVersion: int) {
    forall r :: r in pairs && r.SmapRev? ==> r.smap.version <= smapVersion
  }

  ghost predicate QueueNotAhead(q: seq<Work>, smapVersion: int) {
    forall w :: w in q && w.Pairs? ==> NotAhead(w.pairs, smapVersion)
  }

  lemma QueueShrinks(q: seq<Work>, v: int, q': seq<Work>, v': int)
    requires v <= v' && forall w :: w in q' ==> w in q || w == Reset
    ensures QueueNotAhead(q, v) ==> QueueNotAhead(q', v')
  {}

  lemma FirstNotAhead(q: seq<Work>, v: int)
    requires |q| > 0
    ensures QueueNotAhead(q, v) && q[0].Pairs? ==> NotAhead(q[0].pairs, v)
  {
    assert q[0] in q;
  }

  lemma RestIsIn(q: seq<Work>)
    requires |q| > 0
    ensures forall w :: w in q[1..] ==> w in q
  {}

  lemma MoreNotAhead(q: seq<Work>, v: int, pairs: seq<Rev>)
    ensures QueueNotAhead(q, v) && NotAhead(pairs, v) ==> QueueNotAhead(q + [Pairs(pairs)], v)
  {}

  lemma SameIsNoLesser(p: Payload)
    ensures NoLesser(p, p)
  {}

  lemma NoLesserTwice(a: Payload, b: Payload, c: Payload)
    ensures NoLesser(a, b) && NoLesser(b, c) ==> NoLesser(a, c)
  {}

  class Metasyncer {
    const net: Network
    /** Versions confirmed, by node and tag. */
    var revsmap: map<Id, map<Tag, int>>
    /** Last sent, by tag. */
    var last: Payload
    var workCh: seq<Work>
    var timerStopped: bool

    /** The invariant of every run. */
    ghost predicate Inv()
      reads this, net
    {
      && net.Valid()
      && WellTagged(last)
      && RowsOk(revsmap, last, net.nodes)
    }

    constructor (net: Network)
      requires net.Valid()
      ensures Inv() && this.net == net && last == map[] && revsmap == map[] && workCh == []
    {
      this.net := net;
      revsmap, last, workCh, timerStopped := map[], map[], [], true;
    }

    method SyncDone(sid: Id, pairs: seq<Rev>)
      modifies this`revsmap
      ensures revsmap == old(revsmap)[sid := RowOf(old(revsmap), sid) + Versions(PayloadOf(pairs))]
    {
      var row := if sid in revsmap then revsmap[sid] else map[];
      ghost var row0 := row;
      for i := 0 to |pairs|
        invariant row == row0 + Versions(PayloadOf(pairs[..i]))
      {
        assert pairs[..i + 1][..i] == pairs[..i];
        row := row[pairs[i].Tag() := pairs[i].Version()];
      }
      assert pairs[..|pairs|] == pairs;
      revsmap := revsmap[sid := row];
    }

    /** SyncDone after a confirmed request keeps the invariant. */
    method Confirm(sid: Id, pairs: seq<Rev>)
      requires Inv() && (sid, PayloadOf(pairs)) in net.acked
      requires forall t :: t in PayloadOf(pairs) ==> t in last && last[t] == PayloadOf(pairs)[t]
      modifies this`revsmap
      ensures Inv()
      ensures revsmap == old(revsmap)[sid := RowOf(old(revsmap), sid) + Versions(PayloadOf(pairs))]
    {
      var row := if sid in revsmap then revsmap[sid] else map[];
      ConfirmedRowOk(row, sid, PayloadOf(pairs), last, net.nodes);
      SyncDone(sid, pairs);
    }

    method CountMissing(ids: set<Id>) returns (count: nat)
      ensures count == |ids - revsmap.Keys|
    {
      count := 0;
      var todo := ids;
      while todo != {}
        invariant todo <= ids
        invariant count == |ids - todo - revsmap.Keys|
        decreases |todo|
      {
        var id :| id in todo;
        var seen := ids - todo - revsmap.Keys;
        todo := todo - {id};
        if id !in revsmap {
          count := count + 1;
          assert ids - todo - revsmap.Keys == seen + {id};
        } else {
          assert ids - todo - revsmap.Keys == seen;
        }
      }
    }

    method CountNewMembers(smap: Smap) returns (count: nat)
      ensures count == |smap.tmap.Keys - revsmap.Keys| + |smap.pmap.Keys - revsmap.Keys|
    {
      var t := CountMissing(smap.tmap.Keys);
      var p := CountMissing(smap.pmap.Keys);
      count := t + p;
    }

    /** Step 1: a map from the future aborts; otherwise no version goes down. */
    method Select(pairs: seq<Rev>, smap: Smap, newCnt: nat) returns (toSend: seq<Rev>, aborts: bool)
      requires Inv()
      ensures aborts <==> !NotAhead(pairs, smap.version)
      ensures !aborts ==> toSend == Wanted(pairs, last, newCnt > 0)
    {
      toSend, aborts := [], false;
      for i := 0 to |pairs|
        invariant NotAhead(pairs[..i], smap.version)
        invariant toSend == Wanted(pairs[..i], last, newCnt > 0)
      {
        var revs := pairs[i];
        assert pairs[..i + 1][..i] == pairs[..i];
        assert pairs[..i + 1] == pairs[..i] + [revs] && revs in pairs;
        if revs.SmapRev? && revs.Version() > smap.version {
          return toSend, true;
        }
        var lv := LVersion(last, revs.Tag());
        if lv == revs.Version() {
          if newCnt == 0 {
            continue;
          }
        } else if lv > revs.Version() {
          continue;
        }
        toSend := toSend + [revs];
      }
      assert pairs[..|pairs|] == pairs;
    }

    /** Step 2: remember what is about to be sent, and build the payload. */
    method Publish(toSend: seq<Rev>) returns (payload: Payload)
      modifies this`last
      ensures payload == PayloadOf(toSend)
      ensures last == old(last) + payload
    {
      payload := map[];
      for i := 0 to |toSend|
        invariant payload == PayloadOf(toSend[..i])
        invariant last == old(last) + payload
      {
        var revs := toSend[i];
        assert toSend[..i + 1][..i] == toSend[..i];
        last := last[revs.Tag() := revs];
        payload := payload[revs.Tag() := revs];
      }
      assert toSend[..|toSend|] == toSend;
    }

    /** Steps 4 of doSync and the loops of handleRefused and handlePending: take in the replies. */
    method Collect(res: map<Id, CallResult>, pairs: seq<Rev>) returns (failed: nat, refused: set<Id>)
      requires Inv()
      requires forall d :: d in res && res[d].Ok? ==> (d, PayloadOf(pairs)) in net.acked
      requires forall t :: t in PayloadOf(pairs) ==> t in last && last[t] == PayloadOf(pairs)[t]
      modifies this`revsmap
      ensures Inv()
      ensures refused == set d | d in res && res[d].Refused?
      ensures failed == |set d | d in res && res[d].Failed?|
      ensures Recorded(old(revsmap), revsmap, (set d | d in res && res[d].Ok?), PayloadOf(pairs))
    {
      hide Metasyncer.Inv, TakenIn, Recorded, Versions, PayloadOf, RowOf;
      failed, refused := 0, {};
      var todo := res.Keys;
      TakeNone(res, revsmap, PayloadOf(pairs));
      while todo != {}
        invariant todo <= res.Keys && Inv()
        invariant TakenIn(res, todo, old(revsmap), revsmap, failed, refused, PayloadOf(pairs))
        decreases |todo|
      {
        var d :| d in todo;
        TakeOne(res, todo, d, old(revsmap), revsmap, failed, refused, PayloadOf(pairs));
        match res[d] {
          case Ok =>
            Confirm(d, pairs);
          case Refused =>
            refused := refused + {d};
          case Failed =>
            failed := failed + 1;
        }
        todo := todo - {d};
      }
      TakeAll(res, old(revsmap), revsmap, failed, refused, PayloadOf(pairs));
    }

    /** Time passes; the network does what it does. */
    method Wait()
      requires Inv()
      modifies net
      ensures Inv() && net.smap.version >= old(net.smap).version && Later(old(net.nodes), net.nodes)
    {
      ghost var before := net.nodes;
      net.Evolve();
      RowsStayOk(revsmap, last, before, last, net.nodes);
    }

    method Send(servers: set<Id>, payload: Payload) returns (res: map<Id, CallResult>)
      requires Inv() && WellTagged(payload)
      modifies net
      ensures Inv() && net.smap.version >= old(net.smap).version && Later(old(net.nodes), net.nodes)
      ensures res.Keys == servers - {net.self}
      ensures forall d :: d in res && res[d].Ok? ==> (d, payload) in net.acked
    {
      ghost var before := net.nodes;
      res := net.Broadcast(servers, payload);
      RowsStayOk(revsmap, last, before, last, net.nodes);
    }

    method BecomeNonPrimary()
      requires Inv()
      modifies this`workCh
      ensures Inv() && workCh == old(workCh) + [Reset]
    {
      workCh := workCh + [Reset];
    }

    method HandleRefused(refused: set<Id>, pairs: seq<Rev>) returns (left: set<Id>)
      requires Inv() && net.self !in refused
      requires forall t :: t in PayloadOf(pairs) ==> t in last && last[t] == PayloadOf(pairs)[t]
      modifies this`revsmap, net
      ensures Inv() && net.smap.version >= old(net.smap).version
      ensures left <= refused && Recorded(old(revsmap), revsmap, refused - left, PayloadOf(pairs))
    {
      hide Recorded;
      PayloadWellTagged(pairs);
      var res := Send(refused, PayloadOf(pairs));
      var _, _ := Collect(res, pairs);
      left := set d | d in res && !res[d].Ok?;
      assert (set d | d in res && res[d].Ok?) == refused - left;
    }

    /** Step 6: forget the nodes that are no longer in the map. */
    method Housekeep()
      requires Inv()
      modifies this`revsmap
      ensures Inv()
      ensures revsmap == map d | d in old(revsmap) && net.smap.ContainsID(d) :: old(revsmap)[d]
    {
      var todo := revsmap.Keys;
      while todo != {}
        invariant todo <= old(revsmap).Keys
        invariant revsmap == map d | d in old(revsmap) && (d in todo || net.smap.ContainsID(d)) :: old(revsmap)[d]
        decreases |todo|
      {
        var d :| d in todo;
        todo := todo - {d};
        if !net.smap.ContainsID(d) {
          revsmap := revsmap - {d};
        }
      }
    }

    /** Steps 1 and 2. */
    method Announce(pairs: seq<Rev>) returns (toSend: seq<Rev>, aborts: bool)
      requires Inv()
      modifies this`last
      ensures Inv()
      ensures aborts <==> !NotAhead(pairs, net.smap.version)
      ensures aborts ==> last == old(last)
      ensures !aborts ==> toSend == Wanted(pairs, old(last), !(net.smap.Ids() <= revsmap.Keys))
      ensures !aborts ==> last == old(last) + PayloadOf(toSend) && NoLesser(old(last), last)
    {
      var newCnt := CountNewMembers(net.smap);
      NewcomersCounted(net.smap, revsmap.Keys, newCnt);
      toSend, aborts := Select(pairs, net.smap, newCnt);
      if aborts {
        return;
      }
      WantedOnlyRaises(pairs, last, newCnt > 0);
      RowsStayOk(revsmap, last, net.nodes, last + PayloadOf(toSend), net.nodes);
      var _ := Publish(toSend);
    }

    /** Step 5: the nodes that refused the connection get two more chances. */
    method RetryRefused(refused: set<Id>, pairs: seq<Rev>) returns (left: set<Id>, primary: bool)
      requires Inv() && net.self !in refused
      requires forall t :: t in PayloadOf(pairs) ==> t in last && last[t] == PayloadOf(pairs)[t]
      modifies this`revsmap, this`workCh, net
      ensures Inv() && net.smap.version >= old(net.smap).version
      ensures left <= refused && Recorded(old(revsmap), revsmap, refused - left, PayloadOf(pairs))
      ensures workCh == if primary then old(workCh) else old(workCh) + [Reset]
    {
      hide Recorded;
      left, primary := refused, true;
      RecordedNone(revsmap, PayloadOf(pairs));
      assert refused - left == {};
      for i := 0 to 2
        invariant Inv() && net.smap.version >= old(net.smap).version
        invariant left <= refused && workCh == old(workCh)
        invariant Recorded(old(revsmap), revsmap, refused - left, PayloadOf(pairs))
      {
        if left == {} {
          break;
        }
        Wait();
        if !net.smap.IsPrimary(net.self) {
          BecomeNonPrimary();
          primary := false;
          return;
        }
        ghost var rows, before := revsmap, left;
        left := HandleRefused(left, pairs);
        RecordedTwice(old(revsmap), rows, revsmap, refused - before, before - left, PayloadOf(pairs));
        assert (refused - before) + (before - left) == refused - left;
      }
    }

    /** Steps 3 to 5: broadcast, take in the replies, retry. */
    method Distribute(toSend: seq<Rev>) returns (cnt: nat, refused: set<Id>, primary: bool, ghost who: set<Id>)
      requires Inv()
      requires forall t :: t in PayloadOf(toSend) ==> t in last && last[t] == PayloadOf(toSend)[t]
      modifies this`revsmap, this`workCh, net
      ensures Inv() && net.smap.version >= old(net.smap).version
      ensures workCh == if primary then old(workCh) else old(workCh) + [Reset]
      ensures Recorded(old(revsmap), revsmap, who, PayloadOf(toSend))
      ensures who <= old(net.smap).Ids() - {net.self}
      ensures cnt == 0 && refused == {} ==> who == old(net.smap).Ids() - {net.self}
    {
      hide Recorded, Metasyncer.Inv, PayloadOf;
      var servers := net.smap.tmap.Keys + net.smap.pmap.Keys;
      PayloadWellTagged(toSend);
      var res := Send(servers, PayloadOf(toSend));
      var refused0: set<Id>;
      cnt, refused0 := Collect(res, toSend);
      ghost var ok, bad := (set d | d in res && res[d].Ok?), (set d | d in res && res[d].Failed?);
      ghost var rows := revsmap;
      refused, primary := RetryRefused(refused0, toSend);
      who := ok + (refused0 - refused);
      RecordedTwice(old(revsmap), rows, revsmap, ok, refused0 - refused, PayloadOf(toSend));
      Accounted(res, ok, refused0, bad, refused);
    }

    /**
     The main method. A map from the future aborts it before anything changes. Otherwise it
     keeps the invariant and never lowers the version sent for a tag. When it returns zero
     while still primary, every other node of the map it broadcast to, if still a member, has
     confirmed what was sent, and is up to date exactly if it had confirmed the rest before.
     */
    method DoSync(pairs: seq<Rev>) returns (cnt: nat, aborts: bool, ghost payload: Payload)
      requires Inv()
      modifies this`revsmap, this`last, this`workCh, net
      ensures Inv() && net.smap.version >= old(net.smap).version
      ensures aborts <==> !NotAhead(pairs, old(net.smap).version)
      ensures aborts ==> cnt == 0 && last == old(last) && revsmap == old(revsmap) && workCh == old(workCh)
      ensures !aborts ==>
        && payload == PayloadOf(Wanted(pairs, old(last), !(old(net.smap).Ids() <= old(revsmap).Keys)))
        && Sends(payload, pairs, old(last), !(old(net.smap).Ids() <= old(revsmap).Keys))
        && last == old(last) + payload && NoLesser(old(last), last)
      ensures workCh in {old(workCh), old(workCh) + [Reset]}
      ensures !aborts && cnt == 0 && workCh == old(workCh) && payload != map[] ==>
        forall d :: d in old(net.smap).Ids() - {net.self} && net.smap.ContainsID(d) ==>
          && d in revsmap && revsmap[d] == RowOf(old(revsmap), d) + Versions(payload)
          && (Shows(revsmap, d, last) <==> RowShows(RowOf(old(revsmap), d), old(last) - payload.Keys))
    {
      hide Recorded, RowShows, Shows, RowOf, Versions, Metasyncer.Inv, PayloadOf, Wanted, NoLesser, NotAhead, Sends;
      WantedSends(pairs, last, !(net.smap.Ids() <= revsmap.Keys));
      var toSend;
      toSend, aborts := Announce(pairs);
      PayloadOfNone();
      PayloadIsLast(old(last), toSend);
      if aborts {
        payload := map[];
        return 0, aborts, payload;
      }
      payload := PayloadOf(toSend);
      if |toSend| == 0 {
        return 0, aborts, payload;
      }
      var refused, primary;
      ghost var who;
      cnt, refused, primary, who := Distribute(toSend);
      if !primary {
        return;
      }
      ghost var rows := revsmap;
      Wait();
      Housekeep();
      AfterHousekeeping(old(revsmap), rows, revsmap, who, payload, old(last), net.smap);
      ghost var all := cnt == 0 && refused == {};
      cnt := cnt + |refused|;
      assert cnt == 0 ==> all;
    }

    /** The inner loop of `pending`, with the assertion that must never fail. */
    method RowInSync(d: Id) returns (inSync: bool)
      requires Inv() && d in revsmap
      ensures inSync <==> Shows(revsmap, d, last)
    {
      inSync := true;
      var row := revsmap[d];
      assert RowOk(row, d, last, net.nodes);
      var tags := last.Keys;
      while tags != {}
        invariant tags <= last.Keys
        invariant forall t :: t in last && t !in tags ==> t in row && row[t] == last[t].Version()
        decreases |tags|
      {
        var tag :| tag in tags;
        tags := tags - {tag};
        if tag !in row || row[tag] != last[tag].Version() {
          assert tag !in row || row[tag] < last[tag].Version();
          return false;
        }
      }
    }

    /** The body of the outer loop of `pending`: a node not heard of gets an empty row. */
    method Examine(id: Id, ghost rows: map<Id, map<Tag, int>>, ghost seen: set<Id>) returns (inSync: bool)
      requires Inv() && id !in seen && Extends(rows, revsmap, seen)
      modifies this`revsmap
      ensures Inv() && Extends(rows, revsmap, seen + {id})
      ensures inSync <==> Shows(rows, id, last)
    {
      BehindOneMore(rows, revsmap, seen, id, last);
      if id !in revsmap {
        EmptyRowOk(revsmap, id, last, net.nodes);
        revsmap := revsmap[id := map[]];
        return false;
      }
      inSync := RowInSync(id);
    }

    /** The outer loop of `pending` over one of the two server maps. */
    method PendingAmong(ids: set<Id>) returns (count: nat, pending: set<Id>)
      requires Inv()
      modifies this`revsmap
      ensures Inv() && Extends(old(revsmap), revsmap, ids)
      ensures pending == Behind(old(revsmap), ids, last) && count == |pending|
    {
      hide *;
      count, pending := 0, {};
      ghost var rows := revsmap;
      var todo := ids;
      BehindNone(rows, last);
      DoneSoFar(ids, todo);
      while todo != {}
        invariant todo <= ids
        invariant Inv() && Extends(rows, revsmap, ids - todo)
        invariant pending == Behind(rows, ids - todo, last) && count == |pending|
        decreases |todo|
      {
        var id :| id in todo;
        BehindOneMore(rows, revsmap, ids - todo, id, last);
        var inSync := Examine(id, rows, ids - todo);
        OneMoreDone(ids, todo, id);
        todo := todo - {id};
        if !inSync {
          count := count + 1;
          pending := pending + {id};
        }
      }
      DoneSoFar(ids, todo);
    }

    method Pending(needMap: bool) returns (count: nat, pending: set<Id>)
      requires Inv()
      modifies this`revsmap, this`workCh
      ensures Inv()
      ensures !net.smap.IsPrimary(net.self) ==>
        count == 0 && pending == {} && revsmap == old(revsmap) && workCh == old(workCh) + [Reset]
      ensures net.smap.IsPrimary(net.self) ==>
        && workCh == old(workCh)
        && Extends(old(revsmap), revsmap, net.smap.Ids())
        && (count == 0 <==> Behind(old(revsmap), net.smap.Ids(), last) == {})
        && (needMap ==> pending == Behind(old(revsmap), net.smap.Ids(), last))
    {
      if !net.smap.IsPrimary(net.self) {
        BecomeNonPrimary();
        return 0, {};
      }
      ghost var rows0 := revsmap;
      var tcount, tpending := PendingAmong(net.smap.tmap.Keys);
      ghost var rows1 := revsmap;
      var pcount, ppending := PendingAmong(net.smap.pmap.Keys);
      count, pending := tcount + pcount, if needMap then tpending + ppending else {};
      BehindInTwoSteps(rows0, rows1, net.smap.tmap.Keys, net.smap.pmap.Keys, last);
    }

    /** One pair for each tag last sent. */
    method AllPairs() returns (pairs: seq<Rev>)
      requires WellTagged(last)
      ensures PayloadOf(pairs) == last
    {
      hide PayloadOf;
      pairs := [];
      PayloadOfNone();
      var tags := last.Keys;
      while tags != {}
        invariant tags <= last.Keys
        invariant PayloadOf(pairs) == map t | t in last && t !in tags :: last[t]
        decreases |tags|
      {
        var tag :| tag in tags;
        tags := tags - {tag};
        PayloadLast(pairs, last[tag]);
        pairs := pairs + [last[tag]];
      }
    }

    /**
     The retry. Zero, while still primary, means that every other member of the map has
     confirmed the current version of every tag.
     */
    method HandlePending() returns (cnt: nat)
      requires Inv()
      modifies this`revsmap, this`workCh, net
      ensures Inv() && net.smap.version >= old(net.smap).version
      ensures workCh == if old(net.smap).IsPrimary(net.self) then old(workCh) else old(workCh) + [Reset]
      ensures cnt == 0 && workCh == old(workCh) ==>
        forall d :: d in old(net.smap).Ids() - {net.self} ==> Shows(revsmap, d, last)
    {
      hide Metasyncer.Inv, Extends, Behind, Recorded, Shows;
      var count, pending := Pending(true);
      BehindNobody(old(revsmap), old(net.smap).Ids(), last);
      if count == 0 {
        if net.smap.IsPrimary(net.self) {
          ShownBefore(old(revsmap), revsmap, old(net.smap).Ids(), last);
        }
        return 0;
      }
      ghost var rows := revsmap;
      var pairs := AllPairs();
      var res := Send(pending, last);
      var failed, refused := Collect(res, pairs);
      cnt := failed + |refused|;
      if cnt == 0 {
        ghost var ok, bad := (set d | d in res && res[d].Ok?), (set d | d in res && res[d].Failed?);
        assert refused == {};
        Accounted(res, ok, refused, bad, {});
        assert ok == pending - {net.self};
        AllShown(old(revsmap), rows, revsmap, old(net.smap).Ids(), net.self, last);
      }
    }

    /** The API: queue a request. */
    method Sync(pairs: seq<Rev>)
      requires Inv() && |pairs| > 0
      modifies this`workCh
      ensures Inv()
      ensures workCh == if net.smap.IsPrimary(net.self) then old(workCh) + [Pairs(pairs)] else old(workCh)
    {
      if !net.smap.IsPrimary(net.self) {
        return;
      }
      workCh := workCh + [Pairs(pairs)];
    }

    /**
     One turn of the loop in Run for a request taken off the queue. The retry timer is started
     only by a failure: after a request that everybody confirmed it is as it was.
     */
    method Dequeue() returns (aborts: bool, ghost reset: bool, ghost cnt: nat)
      requires Inv() && |workCh| > 0
      modifies this, net
      ensures Inv() && net.smap.version >= old(net.smap).version
      ensures reset <==> old(workCh[0]).Reset?
      ensures reset ==> !aborts && last == map[] && revsmap == map[] && timerStopped && workCh == old(workCh[1..])
      ensures !reset ==> (aborts <==> !NotAhead(old(workCh[0]).pairs, old(net.smap).version))
      ensures !reset ==> NoLesser(old(last), last)
      ensures !reset ==> workCh in {old(workCh[1..]), old(workCh[1..]) + [Reset]}
      ensures !reset && !aborts ==> timerStopped == (old(timerStopped) && cnt == 0)
      ensures !reset && !aborts && cnt == 0 && workCh == old(workCh[1..]) ==>
        var payload := PayloadOf(Wanted(old(workCh[0]).pairs, old(last), !(old(net.smap).Ids() <= old(revsmap).Keys)));
        payload != map[] ==>
          forall d :: d in old(net.smap).Ids() - {net.self} && net.smap.ContainsID(d) ==>
            (Shows(revsmap, d, last) <==> RowShows(RowOf(old(revsmap), d), old(last) - payload.Keys))
    {
      hide Shows, RowShows, Wanted, PayloadOf, NoLesser, NotAhead;
      var w := workCh[0];
      workCh := workCh[1..];
      if w.Reset? {
        revsmap, last, timerStopped := map[], map[], true;
        return false, true, 0;
      }
      ghost var payload;
      var n;
      n, aborts, payload := DoSync(w.pairs);
      reset, cnt := false, n;
      if aborts {
        SameIsNoLesser(last);
        return;
      }
      if n > 0 && timerStopped {
        timerStopped := false;
      }
    }

    /**
     Any number of turns, in any order: requests are queued, taken off the queue and served,
     the retry timer fires, the network moves. The invariant holds throughout, without a reset
     no tag's version goes down, and the run aborts only if a caller queued a cluster map newer
     than the one its owner held at that time (`ahead`).
     */
    method Run(turns: nat) returns (aborts: bool, ghost resets: nat, ghost ahead: bool)
      requires Inv() && QueueNotAhead(workCh, net.smap.version)
      modifies this, net
      ensures Inv()
      ensures resets == 0 ==> NoLesser(old(last), last)
      ensures aborts ==> ahead
    {
      hide NoLesser, QueueNotAhead, NotAhead, RowsOk, WellTagged;
      resets, ahead, aborts := 0, false, false;
      SameIsNoLesser(last);
      for i := 0 to turns
        invariant Inv()
        invariant resets == 0 ==> NoLesser(old(last), last)
        invariant !aborts && (!ahead ==> QueueNotAhead(workCh, net.smap.version))
      {
        ghost var v, q := net.smap.version, workCh;
        Wait();
        QueueShrinks(q, v, q, net.smap.version);
        v := net.smap.version;
        if {
          case |workCh| > 0 =>
            ghost var before := last;
            ghost var reset, cnt;
            FirstNotAhead(workCh, v);
            RestIsIn(q);
            aborts, reset, cnt := Dequeue();
            resets := resets + if reset then 1 else 0;
            NoLesserTwice(old(last), before, last);
            if aborts {
              return;
            }
            QueueShrinks(q, v, workCh, net.smap.version);
          case !timerStopped =>
            var cnt := HandlePending();
            timerStopped := cnt == 0;
            QueueShrinks(q, v, workCh, net.smap.version);
          case true =>
            var pairs: seq<Rev> := *;
            if |pairs| > 0 {
              ahead := ahead || !NotAhead(pairs, net.smap.version);
              Sync(pairs);
              MoreNotAhead(q, v, pairs);
            }
        }
      }
    }
  }

  /** Everybody has confirmed, at once or later, except for failures and those who still refuse. */
  lemma Accounted(res: map<Id, CallResult>, ok: set<Id>, refused: set<Id>, bad: set<Id>, left: set<Id>)
    requires ok == set d | d in res && res[d].Ok?
    requires refused == set d | d in res && res[d].Refused?
    requires bad == set d | d in res && res[d].Failed?
    ensures ok + (refused - left) <= res.Keys
    ensures |bad| == 0 && left == {} ==> ok + (refused - left) == res.Keys
  {
    forall d | d in res
      ensures d in ok + refused + bad
    {
      assert res[d].Ok? || res[d].Refused? || res[d].Failed?;
    }
    assert |bad| == 0 ==> bad == {};
  }

  lemma PayloadOfNone()
    ensures PayloadOf([]) == map[]
  {}

  /** What was just announced is what is in `last`. */
  lemma PayloadIsLast(last: Payload, toSend: seq<Rev>)
    ensures forall t :: t in PayloadOf(toSend) ==>
      t in last + PayloadOf(toSend) && (last + PayloadOf(toSend))[t] == PayloadOf(toSend)[t]
  {}

  lemma AfterHousekeeping(rows0: map<Id, map<Tag, int>>, rows: map<Id, map<Tag, int>>, rows': map<Id, map<Tag, int>>,
                          who: set<Id>, p: Payload, last: Payload, smap: Smap)
    requires Recorded(rows0, rows, who, p)
    requires rows' == map d | d in rows && smap.ContainsID(d) :: rows[d]
    ensures forall d :: d in who && smap.ContainsID(d) ==>
      && d in rows' && rows'[d] == RowOf(rows0, d) + Versions(p)
      && (Shows(rows', d, last + p) <==> RowShows(RowOf(rows0, d), last - p.Keys))
  {
    forall d | d in who && smap.ContainsID(d)
      ensures d in rows' && rows'[d] == RowOf(rows0, d) + Versions(p)
      ensures Shows(rows', d, last + p) <==> RowShows(RowOf(rows0, d), last - p.Keys)
    {
      UpToDateExactly(RowOf(rows0, d), last, p);
    }
  }

  lemma BehindNobody(rows: map<Id, map<Tag, int>>, ids: set<Id>, last: Payload)
    ensures Behind(rows, ids, last) == {} ==> forall d :: d in ids ==> Shows(rows, d, last)
  {
    forall d | d in ids && !Shows(rows, d, last)
      ensures d in Behind(rows, ids, last)
    {}
  }

  lemma ShownBefore(rows0: map<Id, map<Tag, int>>, rows: map<Id, map<Tag, int>>, ids: set<Id>, last: Payload)
    requires Extends(rows0, rows, ids)
    ensures forall d :: d in ids && d !in Behind(rows0, ids, last) ==> Shows(rows, d, last)
  {}

  /** With all that were behind recorded, nobody is behind. */
  lemma AllShown(rows0: map<Id, map<Tag, int>>, rows: map<Id, map<Tag, int>>, rows': map<Id, map<Tag, int>>,
                 ids: set<Id>, self: Id, last: Payload)
    requires Extends(rows0, rows, ids) && Recorded(rows, rows', Behind(rows0, ids, last) - {self}, last)
    ensures forall d :: d in ids - {self} ==> Shows(rows', d, last)
  {
    hide Extends, Behind, Recorded, Shows;
    ShownBefore(rows0, rows, ids, last);
    RecordedShows(rows, rows', Behind(rows0, ids, last) - {self}, last);
  }

  lemma NewcomersCounted(smap: Smap, known: set<Id>, count: nat)
    requires count == |smap.tmap.Keys - known| + |smap.pmap.Keys - known|
    ensures count > 0 <==> !(smap.Ids() <= known)
  {
    if smap.Ids() <= known {
      assert smap.tmap.Keys - known == {} && smap.pmap.Keys - known == {};
    } else {
      var d :| d in smap.Ids() && d !in known;
      assert d in smap.tmap.Keys - known || d in smap.pmap.Keys - known;
    }
  }
}
