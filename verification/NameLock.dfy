/**
 The name locker, dfc/rtnames.go, and the protocol its clients follow: GET with the
 cold-GET upgrade and downgrade, prefetch, the commit of a PUT, DELETE, eviction, and
 readers that lock around one operation (dfc/target.go, dfc/lru.go). Each operation
 of the locker is one atomic step, as its mutex makes it; what disk, cloud and
 neighbours answer between them is left open.
 */
module NameLock {
  import opened Wrappers

  datatype Pending = Pending(rc: int, exclusive: bool)

  type Locks = map<string, Pending>

  // ---- the operations; None is a failed assertion

  function TryLockOf(m: Locks, uname: string, exclusive: bool): Option<Locks> {
    if uname in m && (exclusive || m[uname].exclusive) then None
    else if exclusive then Some(m[uname := Pending(0, true)])
    else if uname in m then Some(m[uname := m[uname].(rc := m[uname].rc + 1)])
    else Some(m[uname := Pending(1, false)])
  }

  function DowngradeOf(m: Locks, uname: string): Option<Locks> {
    if uname !in m || m[uname].rc + 1 != 1 then None
    else Some(m[uname := Pending(m[uname].rc + 1, false)])
  }

  function UnlockOf(m: Locks, uname: string, exclusive: bool): Option<Locks> {
    if uname !in m then None
    else if exclusive then if m[uname].exclusive then Some(m - {uname}) else None
    else if m[uname].rc - 1 == 0 then Some(m - {uname})
    else Some(m[uname := m[uname].(rc := m[uname].rc - 1)])
  }

  class RtNameMap {
    var m: Locks

    constructor ()
      ensures m == map[]
    {
      m := map[];
    }

    method TryLock(uname: string, exclusive: bool) returns (ok: bool)
      modifies this
      ensures ok <==> TryLockOf(old(m), uname, exclusive).Some?
      ensures m == if ok then TryLockOf(old(m), uname, exclusive).value else old(m)
    {
      var found := uname in m;
      if found && exclusive {
        return false;
      }
      if exclusive {
        m := m[uname := Pending(0, true)];
        return true;
      }
      if found {
        if m[uname].exclusive {
          return false;
        }
      } else {
        m := m[uname := Pending(0, false)];
      }
      m := m[uname := m[uname].(rc := m[uname].rc + 1)];
      ok := true;
    }

    method DowngradeLock(uname: string)
      requires DowngradeOf(m, uname).Some?
      modifies this
      ensures m == DowngradeOf(old(m), uname).value
    {
      assert uname in m;
      m := m[uname := m[uname].(exclusive := false)];
      m := m[uname := m[uname].(rc := m[uname].rc + 1)];
      assert m[uname].rc == 1;
    }

    method Unlock(uname: string, exclusive: bool)
      requires UnlockOf(m, uname, exclusive).Some?
      modifies this
      ensures m == UnlockOf(old(m), uname, exclusive).value
    {
      assert uname in m;
      if exclusive {
        assert m[uname].exclusive;
        m := m - {uname};
        return;
      }
      m := m[uname := m[uname].(rc := m[uname].rc - 1)];
      if m[uname].rc == 0 {
        m := m - {uname};
      }
    }
  }

  // ---- the clients

  /** Where a client stands. The flag of the Cold steps tells a prefetch from a GET. */
  datatype Pc =
    | GetLock | GetLookup | GetVersion | GetChecksum | GetDecide | GetFail | GetUpgrade | GetSend
    | ColdTry | ColdEnter | ColdLock | ColdLookup(prefetch: bool) | ColdNextTier(prefetch: bool) | ColdFetch(prefetch: bool)
    | ColdRename(prefetch: bool) | ColdFinalize(prefetch: bool) | ColdFail(prefetch: bool) | ColdReturn(prefetch: bool)
    | PutLock | PutRename | PutFinalize | PutUnlock
    | DeleteLock | DeleteCloud | DeleteStat | DeleteRemove | DeleteUnlock
    | EvictLock | EvictRemove | EvictUnlock
    | ReadLock | ReadWork | ReadUnlock
    | Done

  predicate IsStart(pc: Pc) {
    pc in {GetLock, ColdTry, PutLock, DeleteLock, EvictLock, ReadLock}
  }

  /** The operation of the locker that a client is about to perform, and where it goes then. */
  datatype Op =
    | Local
    | Acquire(exclusive: bool, then_: Pc)
    | Try(then_: Pc, otherwise: Pc)
    | Release(exclusive: bool, then_: Pc)
    | Downgrade(then_: Pc)

  function OpOf(pc: Pc): Op {
    match pc
    case GetLock => Acquire(false, GetLookup)
    case GetFail => Release(false, Done)
    case GetUpgrade => Release(false, ColdEnter)
    case GetSend => Release(false, Done)
    case ColdTry => Try(ColdLookup(true), Done)
    case ColdLock => Acquire(true, ColdLookup(false))
    case ColdFail(_) => Release(true, Done)
    case ColdReturn(prefetch) => if prefetch then Release(true, Done) else Downgrade(GetSend)
    case PutLock => Acquire(true, PutRename)
    case PutUnlock => Release(true, Done)
    case DeleteLock => Acquire(true, DeleteCloud)
    case DeleteUnlock => Release(true, Done)
    case EvictLock => Acquire(true, EvictRemove)
    case EvictUnlock => Release(true, Done)
    case ReadLock => Acquire(false, ReadWork)
    case ReadUnlock => Release(false, Done)
    case _ => Local
  }

  /** Where a client can go without touching the locker, whatever it finds out. */
  function Branches(pc: Pc): seq<Pc> {
    match pc
    // not found anywhere; found here or elsewhere; go on with what the lookup said
    case GetLookup => [GetFail, GetSend, GetVersion]
    case GetVersion => [GetFail, GetChecksum]
    case GetChecksum => [GetFail, GetDecide]
    case GetDecide => [GetUpgrade, GetSend]
    // the object's path cannot be told
    case ColdEnter => [Done, ColdLock]
    // somebody else has fetched it; it is still to be fetched
    case ColdLookup(p) => [ColdReturn(p), ColdNextTier(p)]
    // the next tier cannot be asked; it has the object; the cloud is to be asked
    case ColdNextTier(p) => [ColdFail(p), ColdRename(p), ColdFetch(p)]
    case ColdFetch(p) => [ColdFail(p), ColdRename(p)]
    case ColdRename(p) => [ColdFail(p), ColdFinalize(p)]
    case ColdFinalize(p) => [ColdFail(p), ColdReturn(p)]
    case PutRename => [PutUnlock, PutFinalize]
    case PutFinalize => [PutUnlock]
    case DeleteCloud => [DeleteUnlock, DeleteStat]
    case DeleteStat => [DeleteUnlock, DeleteRemove]
    case DeleteRemove => [DeleteUnlock]
    case EvictRemove => [EvictUnlock]
    case ReadWork => [ReadUnlock]
    case _ => []
  }

  datatype Hold = Nothing | Read | Write

  /** What a client at this place has acquired and not yet released. */
  function Holds(pc: Pc): Hold {
    match pc
    case GetLock | ColdTry | ColdEnter | ColdLock | PutLock | DeleteLock | EvictLock | ReadLock | Done => Nothing
    case GetLookup | GetVersion | GetChecksum | GetDecide | GetFail | GetUpgrade | GetSend => Read
    case ReadWork | ReadUnlock => Read
    case _ => Write
  }

  /** Who changes an object holds its name for writing, and who reads it holds its name. */
  lemma WorkIsLocked(prefetch: bool)
    ensures forall pc | pc in {ColdLookup(prefetch), ColdNextTier(prefetch), ColdFetch(prefetch), ColdRename(prefetch),
                               ColdFinalize(prefetch)} :: Holds(pc) == Write
    ensures forall pc | pc in {PutRename, PutFinalize, DeleteCloud, DeleteStat, DeleteRemove, EvictRemove} :: Holds(pc) == Write
    ensures forall pc | pc in {GetLookup, GetVersion, GetChecksum, GetDecide, GetSend, ReadWork} :: Holds(pc) == Read
  {}

  /** Every path is balanced: only the locker's operations change what a client holds, and each as it should. */
  lemma Balanced(pc: Pc)
    ensures IsStart(pc) || pc == Done ==> Holds(pc) == Nothing
    ensures
      match OpOf(pc)
      case Local => true
      case Acquire(exclusive, pc') => Holds(pc) == Nothing && Holds(pc') == if exclusive then Write else Read
      case Try(pc', no) => Holds(pc) == Nothing == Holds(no) && Holds(pc') == Write
      case Release(exclusive, pc') => Holds(pc) == (if exclusive then Write else Read) && Holds(pc') == Nothing
      case Downgrade(pc') => Holds(pc) == Write && Holds(pc') == Read
  {}

  lemma BranchesHold(pc: Pc, pc': Pc)
    requires pc' in Branches(pc)
    ensures Holds(pc') == Holds(pc)
  {}

  /** One step of a single client, a vain attempt to lock included. */
  predicate Follows(pc: Pc, pc': Pc) {
    || pc' in Branches(pc)
    || match OpOf(pc)
       case Local => false
       case Acquire(_, t) => pc' == t || pc' == pc
       case Try(t, no) => pc' == t || pc' == no
       case Release(_, t) => pc' == t
       case Downgrade(t) => pc' == t
  }

  datatype Count = Count(shared: int, sole: int)

  /** Locks obtained less locks given back, by the locker's operations in one step. */
  function Obtained(pc: Pc, pc': Pc): Count {
    match OpOf(pc)
    case Local => Count(0, 0)
    case Acquire(exclusive, t) => if pc' != t then Count(0, 0) else if exclusive then Count(0, 1) else Count(1, 0)
    case Try(t, _) => if pc' != t then Count(0, 0) else Count(0, 1)
    case Release(exclusive, _) => if exclusive then Count(0, -1) else Count(-1, 0)
    case Downgrade(_) => Count(1, -1)
  }

  function Balance(path: seq<Pc>): Count {
    if |path| < 2 then Count(0, 0)
    else
      var c, d := Balance(path[..|path| - 1]), Obtained(path[|path| - 2], path[|path| - 1]);
      Count(c.shared + d.shared, c.sole + d.sole)
  }

  ghost predicate IsPath(path: seq<Pc>) {
    path != [] && IsStart(path[0]) && forall k :: 0 < k < |path| ==> Follows(path[k - 1], path[k])
  }

  lemma StepBalanced(pc: Pc, pc': Pc)
    requires Follows(pc, pc')
    ensures
      var d := Obtained(pc, pc');
      && (Holds(pc') == Read <==> (if Holds(pc) == Read then 1 else 0) + d.shared == 1)
      && (Holds(pc') == Write <==> (if Holds(pc) == Write then 1 else 0) + d.sole == 1)
      && 0 <= (if Holds(pc) == Read then 1 else 0) + d.shared <= 1
      && 0 <= (if Holds(pc) == Write then 1 else 0) + d.sole <= 1
  {
    hide Branches, OpOf, Holds;
    Balanced(pc);
    if pc' in Branches(pc) {
      BranchesHold(pc, pc');
      OnlyLocalBranch(pc);
    }
  }

  lemma OnlyLocalBranch(pc: Pc)
    ensures Branches(pc) != [] ==> OpOf(pc) == Local
  {}

  /** On every path a client has given back exactly what it obtained, except for what it still holds; at the end, all of it. */
  lemma {:induction false} PathBalanced(path: seq<Pc>)
    requires IsPath(path)
    ensures
      var h := Holds(path[|path| - 1]);
      Balance(path) == Count(if h == Read then 1 else 0, if h == Write then 1 else 0)
  {
    hide Branches, OpOf, Holds, IsStart, Follows, Obtained;
    var n := |path| - 1;
    if n == 0 {
      Balanced(path[0]);
    } else {
      PathBalanced(path[..n]);
      StepBalanced(path[n - 1], path[n]);
    }
  }

  /** A GET can succeed, with the object here or after a cold GET. */
  lemma GetSucceeds()
    ensures Follows(GetLock, GetLookup) && Follows(GetLookup, GetVersion) && Follows(GetVersion, GetChecksum) &&
      Follows(GetChecksum, GetDecide) && Follows(GetDecide, GetSend) && Follows(GetSend, Done)
    ensures Follows(GetDecide, GetUpgrade) && Follows(GetUpgrade, ColdEnter) && Follows(ColdEnter, ColdLock) &&
      Follows(ColdLock, ColdLookup(false))
  {}

  /** A cold GET and a prefetch can succeed, and then keep a read lock or nothing. */
  lemma ColdFetches(prefetch: bool)
    ensures Follows(ColdTry, ColdLookup(true)) && Follows(ColdLookup(prefetch), ColdNextTier(prefetch))
    ensures Follows(ColdNextTier(prefetch), ColdFetch(prefetch)) && Follows(ColdFetch(prefetch), ColdRename(prefetch))
  {}

  lemma ColdSucceeds(prefetch: bool)
    ensures Follows(ColdRename(prefetch), ColdFinalize(prefetch)) && Follows(ColdFinalize(prefetch), ColdReturn(prefetch))
    ensures Follows(ColdReturn(prefetch), if prefetch then Done else GetSend)
  {}

  /** So can a PUT, a DELETE, an eviction and a reader. */
  lemma PutSucceeds()
    ensures Follows(PutLock, PutRename) && Follows(PutRename, PutFinalize) && Follows(PutFinalize, PutUnlock)
    ensures Follows(PutUnlock, Done)
  {}

  lemma DeleteSucceeds()
    ensures Follows(DeleteLock, DeleteCloud) && Follows(DeleteCloud, DeleteStat) && Follows(DeleteStat, DeleteRemove)
    ensures Follows(DeleteRemove, DeleteUnlock) && Follows(DeleteUnlock, Done)
  {}

  lemma EvictSucceeds()
    ensures Follows(EvictLock, EvictRemove) && Follows(EvictRemove, EvictUnlock) && Follows(EvictUnlock, Done)
  {}

  lemma ReadSucceeds()
    ensures Follows(ReadLock, ReadWork) && Follows(ReadWork, ReadUnlock) && Follows(ReadUnlock, Done)
  {}

  lemma NoDeadEnd(pc: Pc)
    requires OpOf(pc).Local? && pc != Done
    ensures Branches(pc) != []
  {}

  // ---- any number of clients, in any interleaving

  datatype Client = Client(name: string, pc: Pc)

  datatype State = State(locks: Locks, clients: map<nat, Client>)

  ghost function Holders(clients: map<nat, Client>, name: string, h: Hold): set<nat> {
    set i | i in clients && clients[i].name == name && Holds(clients[i].pc) == h
  }

  /** One writer and no readers, or as many readers as are counted, or nobody and no entry. */
  ghost predicate Agree(locks: Locks, name: string, readers: set<nat>, writers: set<nat>) {
    if name !in locks then readers == {} && writers == {}
    else if locks[name].exclusive then readers == {} && |writers| == 1 && locks[name].rc == 0
    else writers == {} && locks[name].rc == |readers| > 0
  }

  ghost predicate Inv(s: State) {
    forall name :: Agree(s.locks, name, Holders(s.clients, name, Read), Holders(s.clients, name, Write))
  }

  datatype Event = Start(id: nat, client: Client) | Move(id: nat, to: Pc) | Operate(id: nat)

  predicate Enabled(s: State, e: Event) {
    match e
    case Start(i, c) => i !in s.clients && IsStart(c.pc)
    case Move(i, pc) => i in s.clients && pc in Branches(s.clients[i].pc)
    case Operate(i) => i in s.clients && !OpOf(s.clients[i].pc).Local?
  }

  /** A client's operation on the lock of its name; None is a failed assertion, a lock not obtained leaves all as it was. */
  function OperateOf(locks: Locks, c: Client): Option<(Locks, Pc)> {
    match OpOf(c.pc)
    case Local => Some((locks, c.pc))
    case Acquire(exclusive, pc) =>
      (match TryLockOf(locks, c.name, exclusive) case None => Some((locks, c.pc)) case Some(m) => Some((m, pc)))
    case Try(pc, no) =>
      (match TryLockOf(locks, c.name, true) case None => Some((locks, no)) case Some(m) => Some((m, pc)))
    case Release(exclusive, pc) =>
      (match UnlockOf(locks, c.name, exclusive) case None => None case Some(m) => Some((m, pc)))
    case Downgrade(pc) =>
      (match DowngradeOf(locks, c.name) case None => None case Some(m) => Some((m, pc)))
  }

  function Step(s: State, e: Event): Option<State>
    requires Enabled(s, e)
  {
    match e
    case Start(i, c) => Some(s.(clients := s.clients[i := c]))
    case Move(i, pc) => Some(s.(clients := s.clients[i := s.clients[i].(pc := pc)]))
    case Operate(i) =>
      match OperateOf(s.locks, s.clients[i])
      case None => None
      case Some((m, pc)) => Some(State(m, s.clients[i := s.clients[i].(pc := pc)]))
  }

  lemma HolderChange(clients: map<nat, Client>, i: nat, c: Client, name: string, h: Hold)
    ensures Holders(clients[i := c], name, h)
         == if c.name == name && Holds(c.pc) == h then Holders(clients, name, h) + {i} else Holders(clients, name, h) - {i}
  {
    hide Holds;
  }

  /** What an operation does to the holders of its own name, in agreement with the lock. */
  lemma OperationAgrees(locks: Locks, c: Client, i: nat, readers: set<nat>, writers: set<nat>)
    requires Agree(locks, c.name, readers, writers) && !OpOf(c.pc).Local?
    requires i in readers <==> Holds(c.pc) == Read
    requires i in writers <==> Holds(c.pc) == Write
    ensures OperateOf(locks, c).Some?
    ensures
      var (m, pc) := OperateOf(locks, c).value;
      && Agree(m, c.name, if Holds(pc) == Read then readers + {i} else readers - {i},
               if Holds(pc) == Write then writers + {i} else writers - {i})
      && (forall name | name != c.name :: (name in m <==> name in locks) && (name in m ==> m[name] == locks[name]))
  {
    hide OpOf, Holds;
    Balanced(c.pc);
    OnlyMember(writers, i);
    Without(readers, i);
    Without(writers, i);
    assert {} + {i} == {i};
  }

  lemma OnlyMember(s: set<nat>, i: nat)
    ensures i in s && |s| == 1 ==> s - {i} == {}
  {
    if i in s && |s| == 1 {
      assert |s - {i}| == 0;
    }
  }

  lemma Without(s: set<nat>, i: nat)
    ensures i !in s ==> s - {i} == s
  {}

  lemma StepInv(s: State, e: Event)
    requires Inv(s) && Enabled(s, e)
    ensures Step(s, e).Some? && Inv(Step(s, e).value)
  {
    hide Agree, Holders, OperateOf, OpOf, Holds, Branches, IsStart;
    match e {
      case Start(i, c) =>
        Balanced(c.pc);
        SameHolders(s, i, c);
      case Move(i, pc) =>
        BranchesHold(s.clients[i].pc, pc);
        SameHolders(s, i, s.clients[i].(pc := pc));
      case Operate(i) =>
        OperateInv(s, i);
    }
  }

  /** A client that holds what it held before, or arrives with nothing, changes nothing. */
  lemma SameHolders(s: State, i: nat, c: Client)
    requires Inv(s)
    requires if i in s.clients then c.name == s.clients[i].name && Holds(c.pc) == Holds(s.clients[i].pc) else Holds(c.pc) == Nothing
    ensures Inv(s.(clients := s.clients[i := c]))
  {
    hide Agree, Holds;
    var clients := s.clients[i := c];
    forall name
      ensures Agree(s.locks, name, Holders(clients, name, Read), Holders(clients, name, Write))
    {
      assert Holders(clients, name, Read) == Holders(s.clients, name, Read);
      assert Holders(clients, name, Write) == Holders(s.clients, name, Write);
    }
  }

  lemma OperateInv(s: State, i: nat)
    requires Inv(s) && i in s.clients && !OpOf(s.clients[i].pc).Local?
    ensures OperateOf(s.locks, s.clients[i]).Some?
    ensures
      var (m, pc) := OperateOf(s.locks, s.clients[i]).value;
      Inv(State(m, s.clients[i := s.clients[i].(pc := pc)]))
  {
    hide OperateOf, OpOf, Holds, Holders, Agree;
    var c := s.clients[i];
    var readers, writers := Holders(s.clients, c.name, Read), Holders(s.clients, c.name, Write);
    IsHolder(s.clients, i);
    OperationAgrees(s.locks, c, i, readers, writers);
    var (m, pc) := OperateOf(s.locks, c).value;
    var clients := s.clients[i := c.(pc := pc)];
    forall name
      ensures Agree(m, name, Holders(clients, name, Read), Holders(clients, name, Write))
    {
      HolderChange(s.clients, i, c.(pc := pc), name, Read);
      HolderChange(s.clients, i, c.(pc := pc), name, Write);
      if name != c.name {
        NotHolder(s.clients, i, name);
        OtherAgrees(s.locks, m, name, Holders(s.clients, name, Read), Holders(s.clients, name, Write));
      }
    }
  }

  lemma OtherAgrees(locks: Locks, m: Locks, name: string, readers: set<nat>, writers: set<nat>)
    requires Agree(locks, name, readers, writers)
    requires (name in m <==> name in locks) && (name in m ==> m[name] == locks[name])
    ensures Agree(m, name, readers, writers)
  {}

  lemma IsHolder(clients: map<nat, Client>, i: nat)
    requires i in clients
    ensures forall h :: i in Holders(clients, clients[i].name, h) <==> Holds(clients[i].pc) == h
  {
    hide Holds;
  }

  lemma NotHolder(clients: map<nat, Client>, i: nat, name: string)
    requires i in clients
    ensures clients[i].name != name ==> forall h :: Holders(clients, name, h) - {i} == Holders(clients, name, h)
  {
    hide Holds;
  }

  // ---- every run

  ghost predicate IsRun(states: seq<State>, events: seq<Event>) {
    && |states| == |events| + 1 && states[0] == State(map[], map[])
    && forall k :: 0 <= k < |events| ==> Enabled(states[k], events[k]) && Step(states[k], events[k]) == Some(states[k + 1])
  }

  /** Along every run lock and holders agree, and no next step of any client fails an assertion. */
  lemma {:induction false} RunsAreSafe(states: seq<State>, events: seq<Event>, k: nat)
    requires IsRun(states, events) && k < |states|
    ensures Inv(states[k])
    ensures forall e | Enabled(states[k], e) :: Step(states[k], e).Some?
  {
    hide Agree, Holders, OperateOf, OpOf, Holds, Branches, IsStart;
    if k == 0 {
      NobodyHolds();
    } else {
      RunsAreSafe(states, events, k - 1);
      assert Enabled(states[k - 1], events[k - 1]);
      StepInv(states[k - 1], events[k - 1]);
    }
    forall e | Enabled(states[k], e)
      ensures Step(states[k], e).Some?
    {
      StepInv(states[k], e);
    }
  }

  lemma NobodyHolds()
    ensures Inv(State(map[], map[]))
  {
    forall name
      ensures Agree(map[], name, Holders(map[], name, Read), Holders(map[], name, Write))
    {
      assert Holders(map[], name, Read) == {} && Holders(map[], name, Write) == {};
    }
  }

  /** Mutual exclusion: next to a writer of a name there is no other holder of it. */
  lemma WriterIsAlone(s: State, i: nat, j: nat)
    requires Inv(s) && i in s.clients && j in s.clients && i != j && s.clients[i].name == s.clients[j].name
    requires Holds(s.clients[i].pc) == Write
    ensures Holds(s.clients[j].pc) == Nothing
  {
    hide Holds;
    var name := s.clients[i].name;
    var readers, writers := Holders(s.clients, name, Read), Holders(s.clients, name, Write);
    assert Agree(s.locks, name, readers, writers);
    assert i in writers;
    OnlyMember(writers, i);
    assert j !in readers && j !in writers - {i};
  }

  /** A client about to lock for reading obtains the lock iff nobody holds its name for writing. */
  lemma ReadLockExactly(s: State, i: nat)
    requires Inv(s) && i in s.clients && OpOf(s.clients[i].pc).Acquire? && !OpOf(s.clients[i].pc).exclusive
    ensures
      var c := s.clients[i];
      OperateOf(s.locks, c).Some?
      && (OperateOf(s.locks, c).value.1 == OpOf(c.pc).then_ <==> Holders(s.clients, c.name, Write) == {})
  {
    hide Holders, Holds, OpOf, Branches;
    var c := s.clients[i];
    Balanced(c.pc);
    assert Agree(s.locks, c.name, Holders(s.clients, c.name, Read), Holders(s.clients, c.name, Write));
  }

  /** A client about to lock for writing, or to try, obtains the lock iff nobody holds its name at all. */
  lemma WriteLockExactly(s: State, i: nat)
    requires Inv(s) && i in s.clients
    requires OpOf(s.clients[i].pc).Try? || (OpOf(s.clients[i].pc).Acquire? && OpOf(s.clients[i].pc).exclusive)
    ensures
      var c := s.clients[i];
      OperateOf(s.locks, c).Some?
      && (OperateOf(s.locks, c).value.1 == OpOf(c.pc).then_ <==>
          Holders(s.clients, c.name, Read) == {} && Holders(s.clients, c.name, Write) == {})
  {
    hide Holders, Holds, OpOf, Branches;
    var c := s.clients[i];
    Balanced(c.pc);
    assert Agree(s.locks, c.name, Holders(s.clients, c.name, Read), Holders(s.clients, c.name, Write));
  }

  /** Any number of clients can read one name at the same time. */
  lemma {:induction false} ReadersTogether(name: string, n: nat) returns (states: seq<State>, events: seq<Event>)
    ensures IsRun(states, events)
    ensures
      var last := states[|states| - 1].clients;
      (forall i: nat :: i in last <==> i < n) && forall i: nat :: i < n ==> last[i] == Client(name, GetLookup)
  {
    if n == 0 {
      states, events := [State(map[], map[])], [];
    } else {
      var k := n - 1;
      states, events := ReadersTogether(name, k);
      var s := states[|states| - 1];
      RunsAreSafe(states, events, |states| - 1);
      var e1, e2 := Start(k, Client(name, GetLock)), Operate(k);
      var s1 := Step(s, e1).value;
      StepInv(s, e1);
      NoWriters(s1, name, k);
      ReadLockExactly(s1, k);
      var s2 := Step(s1, e2).value;
      RunExtended(states, events, e1, s1);
      RunExtended(states + [s1], events + [e1], e2, s2);
      states, events := states + [s1] + [s2], events + [e1] + [e2];
    }
  }

  lemma NoWriters(s: State, name: string, k: nat)
    requires forall i: nat :: i in s.clients ==> s.clients[i].pc == GetLookup || s.clients[i].pc == GetLock
    ensures Holders(s.clients, name, Write) == {}
  {}

  lemma RunExtended(states: seq<State>, events: seq<Event>, e: Event, s: State)
    requires IsRun(states, events) && Enabled(states[|states| - 1], e) && Step(states[|states| - 1], e) == Some(s)
    ensures IsRun(states + [s], events + [e])
  {
    hide Enabled, Step;
    var ss, es := states + [s], events + [e];
    forall k | 0 <= k < |es|
      ensures Enabled(ss[k], es[k]) && Step(ss[k], es[k]) == Some(ss[k + 1])
    {
      assert ss[k] == states[k];
      if k < |events| {
        assert es[k] == events[k] && ss[k + 1] == states[k + 1];
      }
    }
  }

  /**
   No deadlock: while a client is not done, some client can take a step that is not a
   vain attempt to lock. Nobody waits for a lock while holding one.
   */
  lemma SomebodyCanGoOn(s: State, i: nat) returns (e: Event)
    requires Inv(s) && i in s.clients && s.clients[i].pc != Done
    ensures Enabled(s, e) && Step(s, e).Some? && Step(s, e).value != s
  {
    hide Agree, Holders, Holds;
    if j :| j in s.clients && Holds(s.clients[j].pc) != Nothing {
      Balanced(s.clients[j].pc);
      e := GoOn(s, j);
    } else {
      var name := s.clients[i].name;
      NoHolders(s, name);
      assert name !in s.locks;
      e := GoOn(s, i);
    }
  }

  lemma NoHolders(s: State, name: string)
    requires Inv(s) && forall j | j in s.clients :: Holds(s.clients[j].pc) == Nothing
    ensures name !in s.locks
  {
    hide Holds;
    assert Agree(s.locks, name, Holders(s.clients, name, Read), Holders(s.clients, name, Write));
    assert Holders(s.clients, name, Read) == {} && Holders(s.clients, name, Write) == {};
  }

  lemma GoOn(s: State, i: nat) returns (e: Event)
    requires Inv(s) && i in s.clients && s.clients[i].pc != Done
    requires Holds(s.clients[i].pc) != Nothing || s.clients[i].name !in s.locks
    ensures Enabled(s, e) && Step(s, e).Some? && Step(s, e).value != s
  {
    hide Agree, Holders, OpOf, Holds, Branches, IsStart;
    var c := s.clients[i];
    Balanced(c.pc);
    if OpOf(c.pc).Local? {
      NoDeadEnd(c.pc);
      var pc := Branches(c.pc)[0];
      BranchesMove(c.pc, pc);
      e := Move(i, pc);
    } else {
      e := Operate(i);
    }
    StepInv(s, e);
    assert Step(s, e).value.clients[i].pc != c.pc;
  }

  lemma BranchesMove(pc: Pc, pc': Pc)
    requires pc' in Branches(pc)
    ensures pc' != pc
  {}
}
