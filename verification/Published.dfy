/**
 Copy on write. A node's cluster map is an object that many hold: the owner publishes it,
 the metasyncer queues it and keeps the last one it sent together with a copy of its contents
 (dfc/metasync.go). Every change is made on a clone (dfc/clustermap.go, dfc/proxy.go,
 dfc/keepalive.go), so that no object that anybody holds is ever edited, and a clone is
 published before it is queued. The two fatal checks at the beginning of doSync depend on it.
 */
module Published {
  import opened Wrappers
  import opened ClusterMap

  class Primary {
    const self: Snode
    const owner: SmapOwner
    /** Maps handed to the metasyncer and not yet sent. */
    var queue: seq<SmapX>
    var last: Option<SmapX>
    /** The contents of `last` when it was sent. */
    var lastclone: Option<Smap>

    ghost predicate Valid()
      reads *
    {
      && owner.smap.View().Sound()
      && (forall m :: m in queue ==> m.version <= owner.smap.version)
      && (last.Some? <==> lastclone.Some?)
      && (last.Some? ==> last.value.View() == lastclone.value)
    }

    /** The maps in anybody's hands. */
    ghost function Held(): set<SmapX>
      reads this, owner
    {
      {owner.smap} + (set m | m in queue) + if last.Some? then {last.value} else {}
    }

    constructor (self: Snode, owner: SmapOwner)
      requires owner.smap.View().Sound()
      ensures Valid() && this.self == self && this.owner == owner && queue == [] && last == None
    {
      this.self, this.owner := self, owner;
      queue, last, lastclone := [], None, None;
    }

    /** A node registers; the new map is queued. */
    method Register(isProxy: bool, si: Snode, nonElectable: bool) returns (aborts: bool)
      requires Valid()
      modifies this, owner
      ensures Valid() && Unedited(old(Held()))
      ensures aborts <==> !CanRegister(old(owner.smap.View()), isProxy, si)
      ensures queue == if aborts then old(queue) else old(queue) + [owner.smap]
    {
      ghost var m := owner.smap.View();
      aborts := owner.RegisterToSmap(isProxy, si, nonElectable);
      if !aborts {
        RegisterKeeps(m, isProxy, si, nonElectable);
        queue := queue + [owner.smap];
      }
    }

    /** Silent nodes, never the primary itself, are removed; the new map is queued. */
    method Remove(toRemove: seq<Id>) returns (aborts: bool)
      requires Valid() && self.id !in toRemove
      modifies this, owner
      ensures Valid() && Unedited(old(Held()))
      ensures aborts <==> old(owner.smap.View()).IsPrimary(self.id) && !CanRemove(old(owner.smap.View()), toRemove)
    {
      var m := owner.smap.View();
      aborts := owner.RemoveSilent(self.id, toRemove);
      if !aborts && m.IsPrimary(self.id) {
        RemoveKeeps(m, self.id, toRemove);
        if toRemove != [] {
          queue := queue + [owner.smap];
        }
      }
    }

    /** This proxy wins an election over another; the new map is queued. */
    method BecomePrimary(toRemove: Option<Id>, saved: bool) returns (aborts: bool)
      requires Valid() && toRemove != Some(self.id)
      modifies this, owner
      ensures Valid() && Unedited(old(Held()))
    {
      ghost var m := owner.smap.View();
      var err;
      err, aborts := owner.BecomeNewPrimary(self, toRemove, saved);
      if !err && !aborts {
        NewPrimaryKeeps(m, self, toRemove);
        queue := queue + [owner.smap];
      }
    }

    /** The result of somebody else's election is committed; nothing is queued. */
    method Commit(newPrimary: Id, oldPrimary: Option<Id>, saved: bool) returns (aborts: bool)
      requires Valid() && oldPrimary != Some(newPrimary)
      modifies this, owner
      ensures Valid() && Unedited(old(Held())) && queue == old(queue)
    {
      ghost var m := owner.smap.View();
      var err;
      err, aborts := owner.CommitElection(newPrimary, oldPrimary, saved);
      if !err && !aborts {
        CommitKeeps(m, newPrimary, oldPrimary);
      }
    }

    /** A map arrives; nothing is queued. */
    method Receive(newsmap: SmapX, saved: bool, lesserIsErr: bool) returns (err: bool)
      requires Valid() && newsmap.View().Sound()
      modifies this, owner
      ensures Valid() && Unedited(old(Held())) && queue == old(queue)
    {
      ghost var m := owner.smap.View();
      err := owner.Synchronize(newsmap, saved, lesserIsErr);
      SynchronizedInstalls(m, newsmap.View(), saved, lesserIsErr);
    }

    /**
     The beginning of doSync for the first map in the queue. Neither check fires: what was last
     sent has not been edited, and the map is not newer than the owner's.
     */
    method Send() returns (edited: bool, future: bool)
      requires Valid() && queue != []
      modifies this
      ensures Valid() && Unedited(old(Held()))
      ensures !edited && !future
      ensures last.Some? && lastclone == Some(last.value.View())
      ensures last == Some(old(queue[0])) || (last == old(last) && last.value.version >= old(queue[0]).version)
    {
      edited := last.Some? && last.value.View() != lastclone.value;
      var m := queue[0];
      future := m.version > owner.smap.version;
      if last.None? || last.value.version < m.version {
        last, lastclone := Some(m), Some(m.View());
      }
      queue := queue[1..];
    }

    /** Any number of these steps in any order: no check ever fires. */
    method Run(turns: nat) returns (fired: bool)
      requires Valid()
      modifies this, owner
      ensures Valid() && !fired
    {
      fired := false;
      for i := 0 to turns
        invariant Valid() && !fired
      {
        var aborts := false;
        var flag: bool := *;
        if {
          case queue != [] =>
            var edited, future := Send();
            fired := edited || future;
          case true =>
            var si: Snode := *;
            aborts := Register(flag, si, flag);
          case true =>
            var ids: seq<Id> := *;
            if self.id !in ids {
              aborts := Remove(ids);
            }
          case true =>
            var rem: Option<Id> := *;
            if rem != Some(self.id) {
              aborts := BecomePrimary(rem, flag);
            }
          case true =>
            var new': Id := *;
            var old': Option<Id> := *;
            if old' != Some(new') {
              aborts := Commit(new', old', flag);
            }
          case true =>
            var m: Smap := *;
            if m.Sound() {
              var newsmap := new SmapX(m);
              var _ := Receive(newsmap, flag, !flag);
            }
        }
        if aborts {
          return;
        }
      }
    }
  }

  twostate predicate Unedited(held: set<SmapX>)
    reads held
  {
    forall m :: m in held ==> m.View() == old(m.View())
  }

  // ---- each step keeps the map sound and does not lower its version

  lemma RegisterKeeps(m: Smap, isProxy: bool, si: Snode, nonElectable: bool)
    requires m.Sound() && CanRegister(m, isProxy, si)
    ensures var r := Register(m, isProxy, si, nonElectable); r.Sound() && r.version > m.version
  {}

  lemma RemoveKeeps(m: Smap, self: Id, ids: seq<Id>)
    requires m.Sound() && m.IsPrimary(self) && self !in ids
    ensures var r := Removed(m, ids); r.Sound() && r.version >= m.version
  {}

  lemma NewPrimaryKeeps(m: Smap, self: Snode, toRemove: Option<Id>)
    requires m.Sound() && self.id in m.pmap
    requires toRemove.Some? ==> toRemove.value in m.pmap && toRemove.value != self.id
    ensures var r := NewPrimary(m, self, toRemove); r.Sound() && r.version > m.version
  {}

  lemma CommitKeeps(m: Smap, newPrimary: Id, oldPrimary: Option<Id>)
    requires m.Sound() && newPrimary in m.pmap
    requires oldPrimary.Some? ==> oldPrimary.value in m.pmap && oldPrimary.value != newPrimary
    ensures var r := ElectionCommit(m, newPrimary, oldPrimary); r.Sound() && r.version >= m.version
  {}
}
