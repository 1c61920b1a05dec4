/**
 The versioned cluster map, dfc/clustermap.go and cluster/map.go, and the steps that
 change a node's map: registration (dfc/proxy.go), removal of silent nodes
 (dfc/keepalive.go), the commit of an election (dfc/vote.go, dfc/proxy.go) and
 `synchronize`.

 `Smap` is the value of a map, as it travels between nodes. `SmapX` is the object
 that is cloned, edited and then published by an owner; published objects are never
 edited, which is the reason an owner's methods modify the owner alone.
 */
module ClusterMap {
  import opened Wrappers

  type Id = string

  datatype Snode = Snode(id: Id, url: string, digest: U64)

  datatype Smap = Smap(
    tmap: map<Id, Snode>,
    pmap: map<Id, Snode>,
    nonElects: set<Id>,
    proxySI: Option<Snode>,
    version: int)
  {
    predicate ContainsID(id: Id) {
      id in tmap || id in pmap
    }

    predicate IsValid() {
      proxySI.Some? && proxySI.value.id in pmap
    }

    predicate IsPrimary(self: Id) {
      IsValid() && proxySI.value.id == self
    }

    predicate IsPresent(id: Id, isProxy: bool) {
      if isProxy then id in pmap else id in tmap
    }

    ghost function Ids(): set<Id> {
      tmap.Keys + pmap.Keys
    }

    /** No node is both a target and a proxy, and a named primary is one of the proxies. */
    predicate Sound() {
      && tmap.Keys !! pmap.Keys
      && (forall id :: id in tmap ==> tmap[id].id == id)
      && (forall id :: id in pmap ==> pmap[id].id == id)
      && (proxySI.Some? ==> proxySI.value.id in pmap)
    }

    function AddTarget(si: Snode): Smap
      requires !ContainsID(si.id)
    {
      this.(tmap := tmap[si.id := si], version := version + 1)
    }

    function AddProxy(si: Snode): Smap
      requires !ContainsID(si.id)
    {
      this.(pmap := pmap[si.id := si], version := version + 1)
    }

    function DelTarget(id: Id): Smap
      requires id in tmap
    {
      this.(tmap := tmap - {id}, version := version + 1)
    }

    function DelProxy(id: Id): Smap
      requires id in pmap
    {
      this.(pmap := pmap - {id}, version := version + 1)
    }
  }

  /** There is one primary at most, and it is a proxy. */
  lemma PrimaryExactly(m: Smap, self: Id)
    ensures m.IsPrimary(self) <==> m.proxySI.Some? && m.proxySI.value.id == self && self in m.pmap
  {}

  // ---- what each step makes of a node's map

  /** The asserts of addTarget and addProxy: an identity is not reused across kinds. */
  predicate CanRegister(m: Smap, isProxy: bool, si: Snode) {
    if isProxy then si.id !in m.tmap else si.id !in m.pmap
  }

  function Register(m: Smap, isProxy: bool, si: Snode, nonElectable: bool): Smap
    requires CanRegister(m, isProxy, si)
  {
    if isProxy then
      var m1 := if si.id in m.pmap then m.DelProxy(si.id) else m;
      var m2 := m1.AddProxy(si);
      if nonElectable then m2.(nonElects := m2.nonElects + {si.id}) else m2
    else
      var m1 := if si.id in m.tmap then m.DelTarget(si.id) else m;
      m1.AddTarget(si)
  }

  /** The asserts of delProxy and delTarget: each identity is there when its turn comes. */
  predicate CanRemove(m: Smap, ids: seq<Id>) {
    && (forall i :: 0 <= i < |ids| ==> m.ContainsID(ids[i]))
    && (forall i, j :: 0 <= i < j < |ids| ==> ids[i] != ids[j])
  }

  /** All of `ids` gone, one version per removal. */
  ghost function Removed(m: Smap, ids: seq<Id>): Smap {
    var gone := set id | id in ids;
    m.(tmap := m.tmap - gone, pmap := m.pmap - gone, version := m.version + |ids|)
  }

  /** One turn of the removal loop: its assertion holds iff the identity is there and not already removed. */
  lemma RemovalTurn(m: Smap, ids: seq<Id>, i: nat)
    requires m.Sound() && i < |ids| && CanRemove(m, ids[..i])
    ensures CanRemove(m, ids[..i + 1]) <==> Removed(m, ids[..i]).ContainsID(ids[i])
    ensures Removed(m, ids[..i]).ContainsID(ids[i]) ==>
      var r := Removed(m, ids[..i]);
      Removed(m, ids[..i + 1]) == if ids[i] in r.pmap then r.DelProxy(ids[i]) else r.DelTarget(ids[i])
  {
    var before, after := ids[..i], ids[..i + 1];
    assert after == before + [ids[i]];
    var gone := set id | id in before;
    var gone' := set id | id in after;
    assert gone' == gone + {ids[i]};
    assert ids[i] in gone <==> ids[i] in before;
    if ids[i] !in gone && m.ContainsID(ids[i]) {
      assert m.tmap - gone' == m.tmap - gone - {ids[i]};
      assert m.pmap - gone' == m.pmap - gone - {ids[i]};
      if ids[i] in m.pmap {
        assert m.tmap - gone' == m.tmap - gone;
      } else {
        assert m.pmap - gone' == m.pmap - gone;
      }
    }
  }

  lemma CannotRemoveMore(m: Smap, ids: seq<Id>, i: nat)
    requires i <= |ids| && !CanRemove(m, ids[..i])
    ensures !CanRemove(m, ids)
  {
    assert forall j :: 0 <= j < i ==> ids[..i][j] == ids[j];
  }

  /** Exactly the named nodes are gone, each for one version. */
  lemma RemovedExactly(m: Smap, ids: seq<Id>)
    ensures
      var r := Removed(m, ids);
      && (forall id :: id in r.tmap <==> id in m.tmap && id !in ids)
      && (forall id :: id in r.pmap <==> id in m.pmap && id !in ids)
      && (forall id :: id in r.tmap ==> r.tmap[id] == m.tmap[id])
      && (forall id :: id in r.pmap ==> r.pmap[id] == m.pmap[id])
      && r.nonElects == m.nonElects && r.proxySI == m.proxySI && r.version == m.version + |ids|
  {}

  function ElectionCommit(m: Smap, newPrimary: Id, oldPrimary: Option<Id>): Smap
    requires newPrimary in m.pmap
    requires oldPrimary.Some? ==> oldPrimary.value in m.pmap
  {
    var m1 := m.(proxySI := Some(m.pmap[newPrimary]));
    if oldPrimary.Some? then m1.DelProxy(oldPrimary.value) else m1
  }

  function NewPrimary(m: Smap, self: Snode, toRemove: Option<Id>): Smap
    requires self.id in m.pmap
    requires toRemove.Some? ==> toRemove.value in m.pmap
  {
    var m1 := if toRemove.Some? then m.DelProxy(toRemove.value) else m;
    m1.(proxySI := Some(self), version := m1.version + 100)
  }

  /** What a registration comes to: the node has its new entry in its role, all others are as they were. */
  lemma RegisterExactly(m: Smap, isProxy: bool, si: Snode, nonElectable: bool)
    requires CanRegister(m, isProxy, si)
    ensures
      var r := Register(m, isProxy, si, nonElectable);
      var again := if isProxy then si.id in m.pmap else si.id in m.tmap;
      && r.proxySI == m.proxySI && r.version == m.version + (if again then 2 else 1)
      && r.nonElects == m.nonElects + (if isProxy && nonElectable then {si.id} else {})
      && (forall id :: id in r.pmap <==> id in m.pmap || (isProxy && id == si.id))
      && (forall id :: id in r.tmap <==> id in m.tmap || (!isProxy && id == si.id))
      && (forall id :: id in r.pmap ==> r.pmap[id] == if isProxy && id == si.id then si else m.pmap[id])
      && (forall id :: id in r.tmap ==> r.tmap[id] == if !isProxy && id == si.id then si else m.tmap[id])
  {}

  /**
   What a committed election comes to: the new primary is one of the proxies, the old one is
   gone, everything else is as it was, and the version is one higher iff a proxy was removed.
   */
  lemma CommitExactly(m: Smap, newPrimary: Id, oldPrimary: Option<Id>)
    requires m.Sound() && newPrimary in m.pmap && (oldPrimary.Some? ==> oldPrimary.value in m.pmap)
    ensures
      var r := ElectionCommit(m, newPrimary, oldPrimary);
      && r.proxySI == Some(m.pmap[newPrimary])
      && (oldPrimary.Some? ==> !r.ContainsID(oldPrimary.value))
      && r.tmap == m.tmap && r.nonElects == m.nonElects
      && (forall id :: id in r.pmap <==> id in m.pmap && oldPrimary != Some(id))
      && (forall id :: id in r.pmap ==> r.pmap[id] == m.pmap[id])
      && r.version == m.version + (if oldPrimary.Some? then 1 else 0)
  {}

  /** A new primary: itself named, the failed one gone, everything else as it was, the version raised by 100 and one for the removal. */
  lemma NewPrimaryExactly(m: Smap, self: Snode, toRemove: Option<Id>)
    requires m.Sound() && self.id in m.pmap && (toRemove.Some? ==> toRemove.value in m.pmap)
    ensures
      var r := NewPrimary(m, self, toRemove);
      && r.proxySI == Some(self)
      && (toRemove.Some? ==> !r.ContainsID(toRemove.value))
      && r.tmap == m.tmap && r.nonElects == m.nonElects
      && (forall id :: id in r.pmap <==> id in m.pmap && toRemove != Some(id))
      && (forall id :: id in r.pmap ==> r.pmap[id] == m.pmap[id])
      && r.version == m.version + 100 + (if toRemove.Some? then 1 else 0)
  {}

  datatype SyncResult = SyncResult(smap: Smap, err: bool)

  function Synchronized(cur: Smap, newsmap: Smap, saved: bool, lesserIsErr: bool): SyncResult {
    if !newsmap.IsValid() then SyncResult(cur, true)
    else if newsmap.version <= cur.version then
      SyncResult(cur, lesserIsErr && newsmap.version < cur.version)
    else if saved then SyncResult(newsmap, false)
    else SyncResult(cur, true)
  }

  /**
   The offered map is installed exactly when it is valid, newer and can be saved, and else the
   map stays. A call that reports success leaves at least the offered version, unless lesser
   ones are let through.
   */
  lemma SynchronizedInstalls(cur: Smap, newsmap: Smap, saved: bool, lesserIsErr: bool)
    ensures var r := Synchronized(cur, newsmap, saved, lesserIsErr);
            var valid := newsmap.proxySI.Some? && newsmap.proxySI.value.id in newsmap.pmap;
            && r.smap.version >= cur.version
            && r.smap == (if valid && newsmap.version > cur.version && saved then newsmap else cur)
            && (r.err <==> !valid || (newsmap.version > cur.version && !saved)
                           || (newsmap.version < cur.version && lesserIsErr))
            && (lesserIsErr && !r.err ==> r.smap.version >= newsmap.version)
  {}

  // ---- the object that is edited, and its owner

  class SmapX {
    var tmap: map<Id, Snode>
    var pmap: map<Id, Snode>
    var nonElects: set<Id>
    var proxySI: Option<Snode>
    var version: int

    function View(): Smap
      reads this
    {
      Smap(tmap, pmap, nonElects, proxySI, version)
    }

    constructor (m: Smap)
      ensures View() == m
    {
      tmap, pmap, nonElects, proxySI, version := m.tmap, m.pmap, m.nonElects, m.proxySI, m.version;
    }

    method Clone() returns (dst: SmapX)
      ensures fresh(dst) && dst.View() == View()
    {
      dst := new SmapX(View());
    }

    method AddTarget(si: Snode)
      requires !View().ContainsID(si.id)
      modifies this
      ensures View() == old(View()).AddTarget(si)
    {
      tmap := tmap[si.id := si];
      version := version + 1;
    }

    method AddProxy(si: Snode)
      requires !View().ContainsID(si.id)
      modifies this
      ensures View() == old(View()).AddProxy(si)
    {
      pmap := pmap[si.id := si];
      version := version + 1;
    }

    method DelTarget(id: Id)
      requires id in tmap
      modifies this
      ensures View() == old(View()).DelTarget(id)
    {
      tmap := tmap - {id};
      version := version + 1;
    }

    method DelProxy(id: Id)
      requires id in pmap
      modifies this
      ensures View() == old(View()).DelProxy(id)
    {
      pmap := pmap - {id};
      version := version + 1;
    }

    /**
     Adds to `dst` the nodes it does not know in either role. Its own entries, primary
     and version stay, and the identities become the union.
     */
    method Merge(dst: SmapX)
      requires dst != this
      modifies dst
      ensures dst.View().Ids() == old(dst.View().Ids()) + View().Ids()
      ensures forall id :: id in old(dst.tmap) ==> id in dst.tmap && dst.tmap[id] == old(dst.tmap)[id]
      ensures forall id :: id in old(dst.pmap) ==> id in dst.pmap && dst.pmap[id] == old(dst.pmap)[id]
      ensures forall id :: id in dst.tmap && id !in old(dst.tmap) ==> id in tmap && dst.tmap[id] == tmap[id]
      ensures forall id :: id in dst.pmap && id !in old(dst.pmap) ==> id in pmap && dst.pmap[id] == pmap[id]
      ensures dst.proxySI == old(dst.proxySI) && dst.version == old(dst.version)
      ensures dst.nonElects == old(dst.nonElects)
      ensures old(dst.View().Sound()) && View().Sound() ==> dst.View().Sound()
    {
      dst.tmap := Absorb(tmap, dst.tmap, dst.pmap);
      dst.pmap := Absorb(pmap, dst.pmap, dst.tmap);
    }
  }

  /** One loop of `merge`: entries of `src` that neither `dst` nor `other` knows join `dst`. */
  method Absorb(src: map<Id, Snode>, dst: map<Id, Snode>, other: map<Id, Snode>) returns (r: map<Id, Snode>)
    ensures r.Keys == dst.Keys + (src.Keys - other.Keys)
    ensures forall id :: id in r ==> r[id] == if id in dst then dst[id] else src[id]
  {
    r := dst;
    var todo := src.Keys;
    while todo != {}
      invariant todo <= src.Keys
      invariant forall id :: id in r <==> id in dst || (id in src && id !in todo && id !in other)
      invariant forall id :: id in r ==> r[id] == if id in dst then dst[id] else src[id]
      decreases |todo|
    {
      var id :| id in todo;
      todo := todo - {id};
      if id !in r && id !in other {
        r := r[id := src[id]];
      }
    }
  }

  class SmapOwner {
    var smap: SmapX

    constructor (m: Smap)
      ensures smap.View() == m && fresh(smap)
    {
      smap := new SmapX(m);
    }

    /** `aborts` is a failed assertion: the identity is known in the other role. */
    method RegisterToSmap(isProxy: bool, si: Snode, nonElectable: bool) returns (aborts: bool)
      modifies this
      ensures aborts <==> !CanRegister(old(smap.View()), isProxy, si)
      ensures aborts ==> smap == old(smap)
      ensures !aborts ==> fresh(smap) && smap.View() == Register(old(smap.View()), isProxy, si, nonElectable)
    {
      var clone := smap.Clone();
      aborts := false;
      if isProxy {
        if si.id in clone.pmap {
          clone.DelProxy(si.id);
        }
        if clone.View().ContainsID(si.id) {
          return true;
        }
        clone.AddProxy(si);
        if nonElectable {
          clone.nonElects := clone.nonElects + {si.id};
        }
      } else {
        if si.id in clone.tmap {
          clone.DelTarget(si.id);
        }
        if clone.View().ContainsID(si.id) {
          return true;
        }
        clone.AddTarget(si);
      }
      smap := clone;
    }

    /**
     The removal step of pingAllOthers. The map is read again after the pings, so a node
     that left it in the meantime fails the assertion (`aborts`).
     */
    method RemoveSilent(self: Id, toRemove: seq<Id>) returns (aborts: bool)
      requires smap.View().Sound()
      modifies this
      ensures aborts <==> old(smap.View()).IsPrimary(self) && !CanRemove(old(smap.View()), toRemove)
      ensures aborts || !old(smap.View()).IsPrimary(self) || toRemove == [] ==> smap == old(smap)
      ensures !aborts && old(smap.View()).IsPrimary(self) ==> smap.View() == Removed(old(smap.View()), toRemove)
    {
      aborts := false;
      if !smap.View().IsPrimary(self) {
        return;
      }
      ghost var m := smap.View();
      if |toRemove| == 0 {
        assert Removed(m, toRemove) == m;
        return;
      }
      var clone := smap.Clone();
      assert Removed(m, toRemove[..0]) == m;
      for i := 0 to |toRemove|
        invariant fresh(clone) && smap == old(smap) && CanRemove(m, toRemove[..i])
        invariant clone.View() == Removed(m, toRemove[..i])
      {
        hide CanRemove, Removed, Smap.Sound;
        var sid := toRemove[i];
        RemovalTurn(m, toRemove, i);
        if sid in clone.pmap {
          clone.DelProxy(sid);
        } else if sid in clone.tmap {
          clone.DelTarget(sid);
        } else {
          CannotRemoveMore(m, toRemove, i + 1);
          return true;
        }
      }
      assert toRemove[..|toRemove|] == toRemove;
      smap := clone;
    }

    /** httpsetprimaryproxy, with the outcome of writing the configuration given. */
    method CommitElection(newPrimary: Id, oldPrimary: Option<Id>, saved: bool) returns (err: bool, aborts: bool)
      modifies this
      ensures aborts <==>
        newPrimary in old(smap.View()).pmap && oldPrimary.Some? && oldPrimary.value !in old(smap.View()).pmap
      ensures err <==> newPrimary !in old(smap.View()).pmap || (!saved && !aborts)
      ensures err || aborts ==> smap == old(smap)
      ensures !err && !aborts ==> smap.View() == ElectionCommit(old(smap.View()), newPrimary, oldPrimary)
    {
      if newPrimary !in smap.pmap {
        return true, false;
      }
      var clone := smap.Clone();
      clone.proxySI := Some(smap.pmap[newPrimary]);
      if oldPrimary.Some? {
        if oldPrimary.value !in clone.pmap {
          return false, true;
        }
        clone.DelProxy(oldPrimary.value);
      }
      if !saved {
        return true, false;
      }
      smap := clone;
      return false, false;
    }

    method BecomeNewPrimary(self: Snode, toRemove: Option<Id>, saved: bool) returns (err: bool, aborts: bool)
      modifies this
      ensures aborts <==>
        self.id !in old(smap.View()).pmap || (toRemove.Some? && toRemove.value !in old(smap.View()).pmap)
      ensures err <==> !saved && !aborts
      ensures err || aborts ==> smap == old(smap)
      ensures !err && !aborts ==> smap.View() == NewPrimary(old(smap.View()), self, toRemove)
    {
      if self.id !in smap.pmap {
        return false, true;
      }
      var clone := smap.Clone();
      if toRemove.Some? {
        if toRemove.value !in clone.pmap {
          return false, true;
        }
        clone.DelProxy(toRemove.value);
      }
      clone.proxySI := Some(self);
      clone.version := clone.version + 100;
      if !saved {
        return true, false;
      }
      smap := clone;
      return false, false;
    }

    method Synchronize(newsmap: SmapX, saved: bool, lesserIsErr: bool) returns (err: bool)
      modifies this
      ensures SyncResult(smap.View(), err) == Synchronized(old(smap.View()), newsmap.View(), saved, lesserIsErr)
    {
      err := false;
      if !newsmap.View().IsValid() {
        return true;
      }
      var myver := smap.version;
      if newsmap.version <= myver {
        if lesserIsErr && newsmap.version < myver {
          err := true;
        }
        return;
      }
      if !saved {
        return true;
      }
      smap := newsmap;
    }
  }

  // ---- runs of a whole cluster

  /** The map each node holds, and every map that was ever put on the wire. */
  datatype Cluster = Cluster(maps: map<Id, Smap>, wire: set<Smap>)

  datatype Event =
    | EvRegister(node: Id, isProxy: bool, si: Snode, nonElectable: bool)
    | EvRemove(node: Id, ids: seq<Id>)
    | EvCommit(node: Id, newPrimary: Id, oldPrimary: Option<Id>)
    | EvPrimary(node: Id, self: Snode, toRemove: Option<Id>)
    | EvSynchronize(node: Id, newsmap: Smap, saved: bool, lesserIsErr: bool)
    | EvSend(node: Id)

  /** When an event can happen: no assertion of the source trips, and no primary deletes itself. */
  ghost predicate Enabled(c: Cluster, e: Event) {
    e.node in c.maps &&
    var m := c.maps[e.node];
    match e
    case EvRegister(_, isProxy, si, _) => CanRegister(m, isProxy, si)
    case EvRemove(n, ids) => m.IsPrimary(n) && CanRemove(m, ids) && n !in ids
    case EvCommit(_, new', old') =>
      new' in m.pmap && (old'.Some? ==> old'.value in m.pmap && old'.value != new')
    case EvPrimary(_, self, rem) =>
      self.id in m.pmap && (rem.Some? ==> rem.value in m.pmap && rem.value != self.id)
    case EvSynchronize(_, newsmap, _, _) => newsmap in c.wire
    case EvSend(_) => true
  }

  ghost function Step(c: Cluster, e: Event): Cluster
    requires Enabled(c, e)
  {
    var m := c.maps[e.node];
    match e
    case EvRegister(n, isProxy, si, ne) => c.(maps := c.maps[n := Register(m, isProxy, si, ne)])
    case EvRemove(n, ids) => c.(maps := c.maps[n := Removed(m, ids)])
    case EvCommit(n, new', old') => c.(maps := c.maps[n := ElectionCommit(m, new', old')])
    case EvPrimary(n, self, rem) => c.(maps := c.maps[n := NewPrimary(m, self, rem)])
    case EvSynchronize(n, newsmap, saved, lesser) =>
      c.(maps := c.maps[n := Synchronized(m, newsmap, saved, lesser).smap])
    case EvSend(n) => c.(wire := c.wire + {m})
  }

  ghost predicate AllSound(c: Cluster) {
    && (forall n :: n in c.maps ==> c.maps[n].Sound())
    && (forall m :: m in c.wire ==> m.Sound())
  }

  ghost predicate IsRun(cs: seq<Cluster>, es: seq<Event>) {
    && |cs| == |es| + 1
    && forall i :: 0 <= i < |es| ==> Enabled(cs[i], es[i]) && cs[i + 1] == Step(cs[i], es[i])
  }

  lemma StepSound(c: Cluster, e: Event)
    requires AllSound(c) && Enabled(c, e)
    ensures AllSound(Step(c, e))
  {
    assert c.maps[e.node].Sound();
    assert Step(c, e).maps[e.node].Sound();
  }

  lemma StepMonotone(c: Cluster, e: Event)
    requires Enabled(c, e)
    ensures Step(c, e).maps.Keys == c.maps.Keys
    ensures forall n :: n in c.maps ==> Step(c, e).maps[n].version >= c.maps[n].version
  {}

  /**
   Along every run from sound maps: identities stay in one role, a named primary stays
   among the proxies, and no node's version ever goes down.
   */
  lemma {:induction false} RunSoundAndMonotone(cs: seq<Cluster>, es: seq<Event>, i: nat, j: nat)
    requires IsRun(cs, es) && AllSound(cs[0])
    requires i <= j < |cs|
    ensures AllSound(cs[j])
    ensures cs[i].maps.Keys == cs[j].maps.Keys
    ensures forall n :: n in cs[i].maps ==> cs[i].maps[n].version <= cs[j].maps[n].version
    decreases j
  {
    if j > 0 {
      RunSoundAndMonotone(cs, es, if i == j then i - 1 else i, j - 1);
      StepSound(cs[j - 1], es[j - 1]);
      StepMonotone(cs[j - 1], es[j - 1]);
    }
  }
}
