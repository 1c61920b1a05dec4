/**
 Eviction of one bucket directory, dfc/lru.go, and the watermark checks of
 dfc/config.go and dfc/httpcommon.go. The heap is the set of its files: popping
 takes one that no other file in it is older than. Which removals fail, which
 misplaced or old work files stay, and what the file system reports are inputs.
 */
module Lru {
  import opened Wrappers
  import ScatterGather

  const MIN_EVICT: nat := 0x10_0000

  datatype FileInfo = FileInfo(fqn: string, usetime: nat, size: nat)

  // ---- sums over sets of files

  ghost function Size(s: set<FileInfo>): nat {
    if s == {} then 0
    else
      var f :| f in s;
      f.size + Size(s - {f})
  }

  lemma {:induction false} SizeTake(s: set<FileInfo>, f: FileInfo)
    requires f in s
    ensures Size(s) == f.size + Size(s - {f})
  {
    var g :| g in s && Size(s) == g.size + Size(s - {g});
    if f != g {
      SizeTake(s - {g}, f);
      SizeTake(s - {f}, g);
      assert s - {g} - {f} == s - {f} - {g};
    }
  }

  lemma SizeAdd(s: set<FileInfo>, f: FileInfo)
    requires f !in s
    ensures Size(s + {f}) == Size(s) + f.size
  {
    SizeTake(s + {f}, f);
    assert s + {f} - {f} == s;
  }

  lemma {:induction false} SizeSubset(a: set<FileInfo>, b: set<FileInfo>)
    requires a <= b
    ensures Size(a) <= Size(b)
  {
    if a != {} {
      var f :| f in a;
      SizeTake(a, f);
      SizeTake(b, f);
      SizeSubset(a - {f}, b - {f});
    }
  }

  ghost function Older(s: set<FileInfo>, t: nat): set<FileInfo> {
    set f | f in s && f.usetime < t
  }

  ghost predicate Distinct(s: set<FileInfo>) {
    forall f, g | f in s && g in s :: f.usetime == g.usetime ==> f == g
  }

  // ---- the skip rule of the walk

  /** Only files with enough to evict before them were left out of the heap. */
  ghost predicate Skipped(candidates: set<FileInfo>, heap: set<FileInfo>, total: int) {
    && heap <= candidates
    && forall g | g in candidates - heap :: Size(Older(heap, g.usetime)) >= total
  }

  lemma KeepPushed(candidates: set<FileInfo>, heap: set<FileInfo>, total: int, f: FileInfo)
    requires Skipped(candidates, heap, total)
    ensures Skipped(candidates + {f}, heap + {f}, total)
  {
    forall g | g in candidates + {f} - (heap + {f})
      ensures Size(Older(heap + {f}, g.usetime)) >= total
    {
      assert g in candidates - heap;
      SizeSubset(Older(heap, g.usetime), Older(heap + {f}, g.usetime));
    }
  }

  lemma KeepSkipped(candidates: set<FileInfo>, heap: set<FileInfo>, total: int, f: FileInfo)
    requires Skipped(candidates, heap, total) && Size(heap) >= total
    requires forall g | g in heap :: g.usetime < f.usetime
    ensures Skipped(candidates + {f}, heap, total)
  {
    assert Older(heap, f.usetime) == heap;
  }

  // ---- what popping the oldest until enough is evicted comes to

  /**
   `popped` are the files taken from `heap` in order of use until removals worth
   `total` bytes; those in `stuck` cannot be removed.
   */
  ghost predicate PoppedFrom(heap: set<FileInfo>, popped: set<FileInfo>, stuck: set<FileInfo>, total: int) {
    && popped <= heap
    && (forall e, k | e in popped && k in heap - popped :: e.usetime <= k.usetime)
    && (forall e | e in popped :: Size(Older(heap, e.usetime) - stuck) < total)
    && (popped == heap || Size(popped - stuck) >= total)
  }

  /** With distinct use times the outcome is fixed: a file goes iff what is older does not suffice. */
  lemma PoppedExactly(heap: set<FileInfo>, popped: set<FileInfo>, stuck: set<FileInfo>, total: int, f: FileInfo)
    requires PoppedFrom(heap, popped, stuck, total) && Distinct(heap) && f in heap
    ensures f in popped <==> Size(Older(heap, f.usetime) - stuck) < total
  {
    if f !in popped {
      forall e | e in popped - stuck
        ensures e in Older(heap, f.usetime) - stuck
      {
        assert e.usetime <= f.usetime;
      }
      SizeSubset(popped - stuck, Older(heap, f.usetime) - stuck);
    }
  }

  /** In the heap there is enough to remove before every file that was left out of it. */
  ghost predicate Covered(candidates: set<FileInfo>, heap: set<FileInfo>, stuck: set<FileInfo>, total: int) {
    && heap <= candidates
    && forall g | g in candidates - heap :: Size(Older(heap, g.usetime) - stuck) >= total
  }

  /** The skip rule sees to that, as far as the files in the heap can be removed. */
  lemma SkippedIsCovered(candidates: set<FileInfo>, heap: set<FileInfo>, total: int, total': int, stuck: set<FileInfo>)
    requires Skipped(candidates, heap, total) && total' <= total && heap !! stuck
    ensures Covered(candidates, heap, stuck, total')
  {
    forall g | g in candidates - heap
      ensures Size(Older(heap, g.usetime) - stuck) >= total'
    {
      assert Older(heap, g.usetime) - stuck == Older(heap, g.usetime);
    }
  }

  /**
   What a heap with files left out loses, told without the heap: a candidate goes iff
   the older candidates do not suffice.
   */
  lemma SkipExact(candidates: set<FileInfo>, heap: set<FileInfo>, total: int, stuck: set<FileInfo>,
                  popped: set<FileInfo>, f: FileInfo)
    requires Covered(candidates, heap, stuck, total) && Distinct(candidates)
    requires PoppedFrom(heap, popped, stuck, total) && f in candidates
    ensures f in popped <==> Size(Older(candidates, f.usetime) - stuck) < total
  {
    var inAll, inHeap := Older(candidates, f.usetime) - stuck, Older(heap, f.usetime) - stuck;
    SizeSubset(inHeap, inAll);
    if f in heap {
      PoppedExactly(heap, popped, stuck, total, f);
      if g :| g in candidates - heap && g.usetime < f.usetime {
        SizeSubset(Older(heap, g.usetime) - stuck, inHeap);
      } else {
        assert Older(candidates, f.usetime) == Older(heap, f.usetime);
      }
    }
  }

  /**
   Leaving files out of the heap costs nothing exactly when the heap covers them, no
   matter which files are left out and which cannot be removed.
   */
  lemma SkipHarmlessIff(candidates: set<FileInfo>, heap: set<FileInfo>, total: int, stuck: set<FileInfo>,
                        all: set<FileInfo>, popped: set<FileInfo>)
    requires heap <= candidates && Distinct(candidates)
    requires PoppedFrom(candidates, all, stuck, total) && PoppedFrom(heap, popped, stuck, total)
    ensures all == popped <==> Covered(candidates, heap, stuck, total)
  {
    if Covered(candidates, heap, stuck, total) {
      forall f | f in candidates
        ensures f in all <==> f in popped
      {
        PoppedExactly(candidates, all, stuck, total, f);
        SkipExact(candidates, heap, total, stuck, popped, f);
      }
    }
    if all == popped {
      forall g | g in candidates - heap
        ensures Size(Older(heap, g.usetime) - stuck) >= total
      {
        var first := OldestExists(candidates - heap);
        PoppedExactly(candidates, all, stuck, total, first);
        assert Older(candidates, first.usetime) == Older(heap, first.usetime);
        SizeSubset(Older(heap, first.usetime) - stuck, Older(heap, g.usetime) - stuck);
      }
    }
  }

  /** The skip rule is harmless while the files in the heap can be removed: a heap of all candidates loses the same files. */
  lemma SkipHarmless(candidates: set<FileInfo>, heap: set<FileInfo>, total: int, total': int, stuck: set<FileInfo>,
                     all: set<FileInfo>, popped: set<FileInfo>)
    requires Skipped(candidates, heap, total) && total' <= total && Distinct(candidates) && heap !! stuck
    requires PoppedFrom(candidates, all, stuck, total') && PoppedFrom(heap, popped, stuck, total')
    ensures all == popped
  {
    hide PoppedFrom, Covered, Distinct, Size, Older;
    SkippedIsCovered(candidates, heap, total, total', stuck);
    SkipHarmlessIff(candidates, heap, total', stuck, all, popped);
  }

  /** No evicted file is newer than a candidate that stays, even when use times coincide. */
  lemma EvictedNeverNewer(candidates: set<FileInfo>, heap: set<FileInfo>, total: int, stuck: set<FileInfo>,
                          popped: set<FileInfo>, e: FileInfo, s: FileInfo)
    requires Covered(candidates, heap, stuck, total) && PoppedFrom(heap, popped, stuck, total)
    requires e in popped && s in candidates - popped
    ensures e.usetime <= s.usetime
  {
    if s !in heap && e.usetime > s.usetime {
      SizeSubset(Older(heap, s.usetime) - stuck, Older(heap, e.usetime) - stuck);
    }
  }

  /** The candidates suffice exactly when the files in the heap do. */
  lemma HeapSuffices(candidates: set<FileInfo>, heap: set<FileInfo>, total: int)
    requires Skipped(candidates, heap, total)
    ensures Size(candidates) >= total <==> Size(heap) >= total
  {
    SizeSubset(heap, candidates);
    if !(candidates <= heap) {
      var g :| g in candidates && g !in heap;
      SizeSubset(Older(heap, g.usetime), heap);
    } else {
      assert heap == candidates;
    }
  }

  /** A file in the heap that cannot be removed, so that the skip rule costs an eviction. */
  lemma StuckFileMatters()
    ensures
      var a, b, c := FileInfo("a", 1, 10), FileInfo("b", 2, 10), FileInfo("c", 3, 10);
      && Distinct({a, b, c}) && Skipped({a, b, c}, {a, b}, 20)
      && PoppedFrom({a, b, c}, {a, b, c}, {a}, 20) && PoppedFrom({a, b}, {a, b}, {a}, 20)
  {
    var a, b, c := FileInfo("a", 1, 10), FileInfo("b", 2, 10), FileInfo("c", 3, 10);
    SizeAdd({}, a);
    SizeAdd({}, b);
    SizeAdd({a}, b);
    assert {a} + {b} == {a, b} && {} + {a} == {a} && {} + {b} == {b};
    assert Older({a, b}, 3) == {a, b};
    assert Older({a, b, c}, 1) - {a} == {} && Older({a, b, c}, 2) - {a} == {} && Older({a, b, c}, 3) - {a} == {b};
    assert Older({a, b}, 1) - {a} == {} && Older({a, b}, 2) - {a} == {};
  }

  // ---- the walk

  datatype Content = Content(permToEvict: bool, isOld: bool)

  /** One call of the walk's callback: the file and what is found out about it. */
  datatype Entry = Entry(fqn: string, failed: bool, dir: bool, content: Option<Content>, present: bool, aborted: bool,
                         atime: nat, mtime: nat, access: Option<nat>, dontEvictTime: int, misplaced: bool, size: nat)

  datatype Class = Fails | Ignored | OldWork(work: FileInfo) | Candidate(file: FileInfo)

  /** The recorded access time if there is one, else the later of the file system's two. */
  function UseTime(e: Entry): nat {
    match e.access
    case Some(t) => t
    case None => if e.mtime > e.atime then e.mtime else e.atime
  }

  function Classify(e: Entry): Class {
    if e.failed then Fails
    else if e.dir then Ignored
    else if e.content.Some? && !e.content.value.permToEvict && !e.content.value.isOld then Ignored
    else if !e.present then Ignored
    else if e.aborted then Fails
    else if e.content.Some? && e.content.value.isOld then OldWork(FileInfo(e.fqn, 0, e.size))
    else if UseTime(e) > e.dontEvictTime then Ignored
    else if e.misplaced then OldWork(FileInfo(e.fqn, 0, e.size))
    else Candidate(FileInfo(e.fqn, UseTime(e), e.size))
  }

  ghost function Candidates(entries: seq<Entry>): set<FileInfo> {
    set i | 0 <= i < |entries| && Classify(entries[i]).Candidate? :: Classify(entries[i]).file
  }

  function OldWorkOf(entries: seq<Entry>): seq<FileInfo> {
    if entries == [] then []
    else
      var c := Classify(entries[|entries| - 1]);
      OldWorkOf(entries[..|entries| - 1]) + if c.OldWork? then [c.work] else []
  }

  lemma OneMoreCandidate(entries: seq<Entry>, e: Entry)
    ensures Candidates(entries + [e])
         == Candidates(entries) + if Classify(e).Candidate? then {Classify(e).file} else {}
    ensures OldWorkOf(entries + [e]) == OldWorkOf(entries) + if Classify(e).OldWork? then [Classify(e).work] else []
    ensures NoneFails(entries + [e]) <==> NoneFails(entries) && !Classify(e).Fails?
  {
    hide Classify;
    var es := entries + [e];
    assert es[..|entries|] == entries;
    forall i | 0 <= i < |entries| && Classify(entries[i]).Candidate?
      ensures Classify(entries[i]).file in Candidates(es)
    {
      assert es[i] == entries[i];
    }
    forall i | 0 <= i < |entries|
      ensures entries[i] == es[i]
    {}
    assert es[|entries|] == e;
    assert Classify(e).Candidate? ==> Classify(e).file in Candidates(es);
  }

  // ---- which files are which, in terms of what is found out about them

  /** When a file was last used: the recorded access, or else the later of the file system's two times. */
  ghost predicate UsedAt(e: Entry, t: nat) {
    match e.access
    case Some(a) => t == a
    case None => t >= e.atime && t >= e.mtime && (t == e.atime || t == e.mtime)
  }

  /** A regular file that is there, with the walk going on. */
  predicate Regular(e: Entry) {
    !e.failed && !e.dir && e.present && !e.aborted
  }

  /** An object, or content that may be evicted and is not left from another process. */
  predicate IsObject(e: Entry) {
    e.content.None? || (e.content.value.permToEvict && !e.content.value.isOld)
  }

  /** An object in its place, not used lately, that is `f`. */
  ghost predicate Evictable(e: Entry, f: FileInfo) {
    && Regular(e) && IsObject(e) && !e.misplaced
    && f.fqn == e.fqn && f.size == e.size && UsedAt(e, f.usetime) && f.usetime <= e.dontEvictTime
  }

  /** Content left from another process, or an object that is out of place and was not used lately. */
  ghost predicate Leftover(e: Entry, f: FileInfo) {
    && Regular(e) && f == FileInfo(e.fqn, 0, e.size)
    && ((e.content.Some? && e.content.value.isOld)
        || (IsObject(e) && e.misplaced && exists t: nat :: UsedAt(e, t) && t <= e.dontEvictTime))
  }

  /** The walk ends here: an error, or an abort noticed at a file that would have been looked at. */
  predicate Stops(e: Entry) {
    e.failed || (!e.dir && e.present && e.aborted && (IsObject(e) || e.content.value.isOld))
  }

  lemma UsedAtUseTime(e: Entry, t: nat)
    ensures UsedAt(e, t) <==> t == UseTime(e)
  {}

  lemma ClassifyExactly(e: Entry, f: FileInfo)
    ensures Classify(e) == Candidate(f) <==> Evictable(e, f)
    ensures Classify(e) == OldWork(f) <==> Leftover(e, f)
    ensures Classify(e) == Fails <==> Stops(e)
  {
    hide UsedAt, UseTime;
    UsedAtUseTime(e, f.usetime);
    UsedAtUseTime(e, UseTime(e));
    if t: nat :| UsedAt(e, t) && t <= e.dontEvictTime {
      UsedAtUseTime(e, t);
    }
  }

  lemma CandidatesExactly(entries: seq<Entry>, f: FileInfo)
    ensures f in Candidates(entries) <==> exists e :: e in entries && Evictable(e, f)
  {
    hide Classify, Evictable;
    forall e
      ensures Classify(e) == Candidate(f) <==> Evictable(e, f)
    {
      ClassifyExactly(e, f);
    }
    if f in Candidates(entries) {
      var i :| 0 <= i < |entries| && Classify(entries[i]).Candidate? && f == Classify(entries[i]).file;
      assert entries[i] in entries && Classify(entries[i]) == Candidate(f);
    }
    if e :| e in entries && Evictable(e, f) {
      var i :| 0 <= i < |entries| && entries[i] == e;
      assert Classify(entries[i]) == Candidate(f);
    }
  }

  lemma {:induction false} OldWorkExactly(entries: seq<Entry>, f: FileInfo)
    ensures f in OldWorkOf(entries) <==> exists e :: e in entries && Leftover(e, f)
  {
    hide Classify, Leftover;
    if entries != [] {
      var n := |entries| - 1;
      OldWorkExactly(entries[..n], f);
      ClassifyExactly(entries[n], f);
      assert entries == entries[..n] + [entries[n]];
    }
  }

  lemma FailsExactly(entries: seq<Entry>)
    ensures NoneFails(entries) <==> forall e :: e in entries ==> !Stops(e)
  {
    hide Classify, Stops;
    forall e
      ensures Classify(e) == Fails <==> Stops(e)
    {
      ClassifyExactly(e, FileInfo("", 0, 0));
    }
  }

  /** The old work removed is what does not stay. */
  lemma {:induction false} FreedExactly(oldwork: seq<FileInfo>, stay: set<FileInfo>)
    requires NoDup(oldwork)
    ensures Freed(oldwork, stay) == Size(set f | f in oldwork && f !in stay)
  {
    if oldwork != [] {
      var n := |oldwork| - 1;
      var front, f := oldwork[..n], oldwork[n];
      FreedExactly(front, stay);
      assert oldwork == front + [f] && f !in front;
      var before := set g | g in front && g !in stay;
      if f in stay {
        assert (set g | g in oldwork && g !in stay) == before;
      } else {
        assert (set g | g in oldwork && g !in stay) == before + {f};
        SizeAdd(before, f);
      }
    }
  }

  /** Bytes of old work that removing all but `stay` frees. */
  function Freed(oldwork: seq<FileInfo>, stay: set<FileInfo>): nat {
    if oldwork == [] then 0
    else
      var f := oldwork[|oldwork| - 1];
      Freed(oldwork[..|oldwork| - 1], stay) + if f in stay then 0 else f.size
  }

  // ---- steps of the eviction loop

  ghost predicate Popping(heap: set<FileInfo>, popped: set<FileInfo>, stuck: set<FileInfo>, total: int) {
    && popped <= heap
    && (forall e, k | e in popped && k in heap - popped :: e.usetime <= k.usetime)
    && (forall e | e in popped :: Size(Older(heap, e.usetime) - stuck) < total)
  }

  predicate IsOldest(f: FileInfo, s: set<FileInfo>) {
    f in s && forall g | g in s :: f.usetime <= g.usetime
  }

  lemma {:induction false} OldestExists(s: set<FileInfo>) returns (f: FileInfo)
    requires s != {}
    ensures IsOldest(f, s)
  {
    f :| f in s;
    if s != {f} {
      var g := OldestExists(s - {f});
      if g.usetime < f.usetime {
        f := g;
      }
    }
  }

  lemma OlderArePopped(heap: set<FileInfo>, popped: set<FileInfo>, stuck: set<FileInfo>, f: FileInfo)
    requires IsOldest(f, heap - popped)
    ensures Older(heap, f.usetime) - stuck <= popped - stuck
  {
    forall g | g in Older(heap, f.usetime) - stuck
      ensures g in popped - stuck
    {
      assert g !in popped ==> g in heap - popped;
    }
  }

  lemma PopOne(heap: set<FileInfo>, popped: set<FileInfo>, stuck: set<FileInfo>, total: int, f: FileInfo)
    requires Popping(heap, popped, stuck, total) && IsOldest(f, heap - popped) && Size(popped - stuck) < total
    ensures Popping(heap, popped + {f}, stuck, total)
  {
    hide Size;
    OlderArePopped(heap, popped, stuck, f);
    SizeSubset(Older(heap, f.usetime) - stuck, popped - stuck);
    forall e, k | e in popped + {f} && k in heap - (popped + {f})
      ensures e.usetime <= k.usetime
    {
      assert k in heap - popped;
    }
  }

  lemma OneMoreRemoved(popped: set<FileInfo>, stuck: set<FileInfo>, f: FileInfo)
    ensures popped + {f} - stuck == (popped - stuck) + if f in stuck then {} else {f}
  {}

  lemma PopCount(popped: set<FileInfo>, stuck: set<FileInfo>, f: FileInfo)
    requires f !in popped
    ensures Size(popped + {f} - stuck) == Size(popped - stuck) + if f in stuck then 0 else f.size
    ensures |popped + {f} - stuck| == |popped - stuck| + if f in stuck then 0 else 1
  {
    hide Size;
    OneMoreRemoved(popped, stuck, f);
    var removed := popped - stuck;
    if f in stuck {
      assert removed + {} == removed;
    } else {
      SizeAdd(removed, f);
    }
  }

  class LruCtx {
    var cursize: int
    var totsize: int
    var newest: nat
    var heap: set<FileInfo>
    var oldwork: seq<FileInfo>

    ghost predicate Valid()
      reads this
    {
      cursize == Size(heap) && forall f | f in heap :: f.usetime <= newest
    }

    constructor ()
      ensures Valid() && totsize == 0 && heap == {} && oldwork == []
    {
      cursize, totsize, newest, heap, oldwork := 0, 0, 0, {}, [];
    }

    /** Below the high watermark the total stays at zero. */
    method EvictSize(blocks: U64, bavail: U64, bsize: I64, wm: Watermarks)
      requires Valid() && totsize == 0 && EvictTotal(blocks, bavail, bsize, wm).Some?
      modifies this`totsize
      ensures Valid() && Some(totsize) == EvictTotal(blocks, bavail, bsize, wm)
    {
      var used: int := Wrap(blocks - bavail);
      var usedpct := Wrap(used * 100) / blocks;
      if usedpct < Unsigned(wm.high) {
        return;
      }
      var lwmblocks: int := Wrap(blocks * Unsigned(wm.low)) / 100;
      totsize := Signed(Wrap(Signed(Wrap(used - lwmblocks)) * bsize));
    }

    /** The callback, for a file not seen before. */
    method Walk(e: Entry, ghost candidates: set<FileInfo>) returns (ok: bool)
      requires Valid() && Skipped(candidates, heap, totsize)
      requires forall f | f in candidates :: f.fqn != e.fqn
      modifies this
      ensures Valid() && totsize == old(totsize)
      ensures ok <==> !Classify(e).Fails?
      ensures oldwork == old(oldwork) + if Classify(e).OldWork? then [Classify(e).work] else []
      ensures Skipped(candidates + if Classify(e).Candidate? then {Classify(e).file} else {}, heap, totsize)
      ensures !Classify(e).Candidate? ==> heap == old(heap)
    {
      hide Size, Older, Skipped;
      ok := true;
      match Classify(e) {
        case Fails => ok := false;
        case Ignored =>
        case OldWork(fi) =>
          oldwork := oldwork + [fi];
        case Candidate(fi) =>
          if cursize >= totsize && fi.usetime > newest {
            KeepSkipped(candidates, heap, totsize, fi);
            return;
          }
          KeepPushed(candidates, heap, totsize, fi);
          HeapAmongCandidates(candidates, heap, totsize);
          SizeAdd(heap, fi);
          heap := heap + {fi};
          cursize := cursize + fi.size;
          if fi.usetime > newest {
            newest := fi.usetime;
          }
      }
      assert !Classify(e).Candidate? ==> candidates + {} == candidates;
    }

    /** The whole walk, over files with different names. */
    method WalkAll(entries: seq<Entry>) returns (ok: bool)
      requires Valid() && heap == {} && oldwork == [] && DistinctNames(entries)
      modifies this
      ensures Valid() && totsize == old(totsize)
      ensures ok <==> NoneFails(entries)
      ensures ok ==> Skipped(Candidates(entries), heap, totsize) && oldwork == OldWorkOf(entries)
    {
      hide Size, Older, Skipped, Classify, Candidates, OldWorkOf, DistinctNames, NoneFails, LruCtx.Valid;
      NoCandidates(totsize);
      ok := true;
      var i := 0;
      assert entries[..i] == [];
      while i < |entries| && ok
        invariant 0 <= i <= |entries| && Valid() && totsize == old(totsize)
        invariant ok <==> NoneFails(entries[..i])
        invariant ok ==> Skipped(Candidates(entries[..i]), heap, totsize) && oldwork == OldWorkOf(entries[..i])
      {
        CandidateNames(entries, i);
        OneMoreCandidate(entries[..i], entries[i]);
        assert entries[..i] + [entries[i]] == entries[..i + 1];
        ok := Walk(entries[i], Candidates(entries[..i]));
        i := i + 1;
      }
      assert i == |entries| ==> entries[..i] == entries;
      FailureStays(entries, i);
    }

    method RemoveOldWork(stay: set<FileInfo>)
      modifies this`totsize
      ensures totsize == old(totsize) - Freed(oldwork, stay)
    {
      var i := 0;
      while i < |oldwork|
        invariant 0 <= i <= |oldwork|
        invariant totsize == old(totsize) - Freed(oldwork[..i], stay)
      {
        assert oldwork[..i + 1][..i] == oldwork[..i];
        if oldwork[i] !in stay {
          totsize := totsize - oldwork[i].size;
        }
        i := i + 1;
      }
      assert oldwork[..i] == oldwork;
    }

    /** Old work first, then the oldest files until enough is gone. */
    method Evict(stay: set<FileInfo>, stuck: set<FileInfo>) returns (bevicted: nat, fevicted: nat, ghost last: Option<FileInfo>)
      modifies this`totsize, this`heap
      ensures
        var total := old(totsize) - Freed(oldwork, stay);
        && Drained(old(heap), heap, stuck, total, bevicted, fevicted, last)
        && totsize == total - bevicted
    {
      hide Popping, Draining, Drained;
      RemoveOldWork(stay);
      ghost var h0, total := heap, totsize;
      bevicted, fevicted, last := 0, 0, None;
      DrainStart(h0, stuck, total);
      while heap != {} && totsize > 0
        invariant Draining(h0, heap, stuck, total, bevicted, fevicted, last)
        invariant totsize == total - bevicted
        decreases |heap|
      {
        ghost var oldest := OldestExists(heap);
        var fi :| IsOldest(fi, heap);
        DrainOne(h0, heap, stuck, total, bevicted, fevicted, last, fi);
        heap := heap - {fi};
        if fi !in stuck {
          totsize := totsize - fi.size;
          bevicted := bevicted + fi.size;
          fevicted := fevicted + 1;
          last := Some(fi);
        }
      }
      DrainEnd(h0, heap, stuck, total, bevicted, fevicted, last);
    }
  }

  /** In the middle of the eviction loop: `heap` is what is left of `h0`. */
  ghost predicate Draining(h0: set<FileInfo>, heap: set<FileInfo>, stuck: set<FileInfo>, total: int,
                           bevicted: nat, fevicted: nat, last: Option<FileInfo>) {
    var popped := h0 - heap;
    && heap <= h0 && Popping(h0, popped, stuck, total)
    && Removals(popped - stuck, total, bevicted, fevicted, last)
  }

  /** The removed files with their number and bytes; without the last of them they did not suffice. */
  ghost predicate Removals(removed: set<FileInfo>, total: int, bevicted: nat, fevicted: nat, last: Option<FileInfo>) {
    && bevicted == Size(removed) && fevicted == |removed|
    && match last
       case None => removed == {}
       case Some(f) => IsLatest(f, removed) && bevicted - f.size < total
  }

  ghost predicate Drained(h0: set<FileInfo>, heap: set<FileInfo>, stuck: set<FileInfo>, total: int,
                          bevicted: nat, fevicted: nat, last: Option<FileInfo>) {
    var popped := h0 - heap;
    && heap <= h0 && PoppedFrom(h0, popped, stuck, total)
    && Removals(popped - stuck, total, bevicted, fevicted, last)
  }

  lemma DrainStart(h0: set<FileInfo>, stuck: set<FileInfo>, total: int)
    ensures Draining(h0, h0, stuck, total, 0, 0, None)
  {
    assert h0 - h0 == {} && {} - stuck == {};
  }

  lemma DrainOne(h0: set<FileInfo>, heap: set<FileInfo>, stuck: set<FileInfo>, total: int,
                 bevicted: nat, fevicted: nat, last: Option<FileInfo>, f: FileInfo)
    requires Draining(h0, heap, stuck, total, bevicted, fevicted, last) && IsOldest(f, heap) && bevicted < total
    ensures Draining(h0, heap - {f}, stuck, total, if f in stuck then bevicted else bevicted + f.size,
                     if f in stuck then fevicted else fevicted + 1, if f in stuck then last else Some(f))
  {
    hide Size, Older, Popping;
    var popped := h0 - heap;
    SubsetComplement(h0, heap, f);
    PopOne(h0, popped, stuck, total, f);
    PopCount(popped, stuck, f);
    PopLatest(h0, popped, stuck, total, f);
  }

  lemma SubsetComplement(h0: set<FileInfo>, heap: set<FileInfo>, f: FileInfo)
    requires heap <= h0 && f in heap
    ensures h0 - (h0 - heap) == heap && h0 - (heap - {f}) == h0 - heap + {f} && heap - {f} <= h0
  {}

  lemma DrainEnd(h0: set<FileInfo>, heap: set<FileInfo>, stuck: set<FileInfo>, total: int,
                 bevicted: nat, fevicted: nat, last: Option<FileInfo>)
    requires Draining(h0, heap, stuck, total, bevicted, fevicted, last) && (heap == {} || bevicted >= total)
    ensures Drained(h0, heap, stuck, total, bevicted, fevicted, last)
  {
    hide Size, Older;
    assert heap == {} ==> h0 - heap == h0;
  }

  predicate DistinctNames(entries: seq<Entry>) {
    forall i, j :: 0 <= i < j < |entries| ==> entries[i].fqn != entries[j].fqn
  }

  predicate NoneFails(entries: seq<Entry>) {
    forall i :: 0 <= i < |entries| ==> !Classify(entries[i]).Fails?
  }

  lemma FailureStays(entries: seq<Entry>, i: nat)
    requires i <= |entries|
    ensures NoneFails(entries) ==> NoneFails(entries[..i])
  {}

  ghost predicate IsLatest(f: FileInfo, s: set<FileInfo>) {
    f in s && forall g | g in s :: g.usetime <= f.usetime
  }

  lemma NoCandidates(total: int)
    ensures Candidates([]) == {} && OldWorkOf([]) == [] && NoneFails([]) && Skipped({}, {}, total)
  {}

  lemma CandidateNames(entries: seq<Entry>, i: nat)
    requires i < |entries| && DistinctNames(entries)
    ensures forall f | f in Candidates(entries[..i]) :: f.fqn != entries[i].fqn
  {}

  lemma PopLatest(heap: set<FileInfo>, popped: set<FileInfo>, stuck: set<FileInfo>, total: int, f: FileInfo)
    requires Popping(heap, popped, stuck, total) && IsOldest(f, heap - popped)
    ensures f in stuck ==> popped + {f} - stuck == popped - stuck
    ensures f !in stuck ==> IsLatest(f, popped + {f} - stuck)
  {}

  lemma HeapAmongCandidates(candidates: set<FileInfo>, heap: set<FileInfo>, total: int)
    requires Skipped(candidates, heap, total)
    ensures heap <= candidates
  {}

  // ---- watermarks

  datatype Watermarks = Watermarks(low: I64, high: I64)

  /** The check made when the configuration is read. */
  predicate Checked(wm: Watermarks) {
    !(wm.high <= 0 || wm.low <= 0 || wm.high < wm.low || wm.low > 100 || wm.high > 100)
  }

  class Config {
    var low: I64
    var high: I64

    function Marks(): Watermarks
      reads this
    {
      Watermarks(low, high)
    }

    constructor (wm: Watermarks)
      ensures Marks() == wm
    {
      low, high := wm.low, wm.high;
    }

    /**
     Sets one watermark from a parsed value (None when it is not a number). Either the
     result passes the check and is as asked, or both watermarks are as before.
     */
    method SetConfig(name: string, value: Option<I64>) returns (ok: bool)
      modifies this
      ensures old(Checked(Marks())) ==> Checked(Marks())
      ensures
        var asked := if value.None? then old(Marks())
                     else if name == "lowwm" then old(Marks()).(low := value.value)
                     else if name == "highwm" then old(Marks()).(high := value.value)
                     else old(Marks());
        && (ok <==> name in {"lowwm", "highwm"} && value.Some? && Checked(asked))
        && Marks() == if ok then asked else old(Marks())
    {
      var lm, hm := low, high;
      var checkwm := false;
      ok := false;
      match value {
        case None =>
        case Some(v) =>
          if name == "lowwm" {
            low, checkwm := v, true;
          } else if name == "highwm" {
            high, checkwm := v, true;
          }
      }
      if checkwm {
        ok := true;
        if high <= 0 || low <= 0 || high < low || low > 100 || high > 100 {
          low, high := lm, hm;
          ok := false;
        }
      }
    }
  }

  /** Arithmetic of unsigned 64-bit words. */
  function Wrap(x: int): U64 {
    x % TWO_TO_THE_64
  }

  /** The bytes to evict, in the program's own arithmetic; None is a division by zero. */
  function EvictTotal(blocks: U64, bavail: U64, bsize: I64, wm: Watermarks): Option<I64> {
    if blocks == 0 then None
    else
      var used := Wrap(blocks - bavail);
      if Wrap(used * 100) / blocks < Unsigned(wm.high) then Some(0)
      else
        var lwmblocks := Wrap(blocks * Unsigned(wm.low)) / 100;
        Some(Signed(Wrap(Signed(Wrap(used - lwmblocks)) * bsize)))
  }

  lemma AboveHighMeansAboveLow(blocks: nat, used: nat, wm: Watermarks)
    requires Checked(wm) && blocks > 0 && used * 100 / blocks >= wm.high
    ensures blocks * wm.low / 100 <= used
  {
    QuotientBound(used * 100, blocks, wm.high);
    ScatterGather.MulMonotone(wm.low, wm.high, blocks);
    assert blocks * wm.low <= used * 100;
    assert blocks * wm.low / 100 <= used * 100 / 100;
  }

  lemma QuotientBound(a: nat, b: nat, q: nat)
    requires b > 0 && a / b >= q
    ensures q * b <= a
  {
    ScatterGather.MulMonotone(q, a / b, b);
  }

  /** On every file system of less than 2^63 bytes nothing wraps around and nothing goes below zero. */
  lemma EvictSizeExact(blocks: U64, bavail: U64, bsize: I64, wm: Watermarks)
    requires Checked(wm) && 0 < blocks && bavail <= blocks && blocks * 100 < TWO_TO_THE_64
    requires 0 < bsize && blocks * bsize < 0x8000_0000_0000_0000
    ensures
      var used := blocks - bavail;
      && (used * 100 / blocks < wm.high ==> EvictTotal(blocks, bavail, bsize, wm) == Some(0))
      && (used * 100 / blocks >= wm.high ==>
           && blocks * wm.low / 100 <= used
           && EvictTotal(blocks, bavail, bsize, wm) == Some((used - blocks * wm.low / 100) * bsize))
  {
    hide EvictTotal;
    var used := blocks - bavail;
    if used * 100 / blocks >= wm.high {
      AboveHighMeansAboveLow(blocks, used, wm);
      var lwmblocks := blocks * wm.low / 100;
      ScatterGather.MulMonotone(used - lwmblocks, blocks, bsize);
      ScatterGather.MulMonotone(0, used - lwmblocks, bsize);
      ScatterGather.MulMonotone(wm.low, 100, blocks);
      EvictSizeAbove(blocks, bavail, bsize, wm, lwmblocks);
    } else {
      EvictSizeBelow(blocks, bavail, bsize, wm);
    }
  }

  lemma EvictSizeBelow(blocks: U64, bavail: U64, bsize: I64, wm: Watermarks)
    requires Checked(wm) && 0 < blocks && bavail <= blocks && blocks * 100 < TWO_TO_THE_64
    requires (blocks - bavail) * 100 / blocks < wm.high
    ensures EvictTotal(blocks, bavail, bsize, wm) == Some(0)
  {
    assert Wrap(blocks - bavail) == blocks - bavail;
    assert Wrap((blocks - bavail) * 100) == (blocks - bavail) * 100;
  }

  lemma EvictSizeAbove(blocks: U64, bavail: U64, bsize: I64, wm: Watermarks, lwmblocks: nat)
    requires Checked(wm) && 0 < blocks && bavail <= blocks && blocks * 100 < TWO_TO_THE_64
    requires (blocks - bavail) * 100 / blocks >= wm.high
    requires blocks * wm.low < TWO_TO_THE_64 && lwmblocks == blocks * wm.low / 100 <= blocks - bavail
    requires blocks - bavail - lwmblocks < 0x8000_0000_0000_0000
    requires 0 <= (blocks - bavail - lwmblocks) * bsize < 0x8000_0000_0000_0000
    ensures EvictTotal(blocks, bavail, bsize, wm) == Some((blocks - bavail - lwmblocks) * bsize)
  {
    var used := blocks - bavail;
    assert Wrap(used) == used && Wrap(used * 100) == used * 100;
    assert Wrap(blocks * wm.low) == blocks * wm.low && Unsigned(wm.low) == wm.low;
    assert Wrap(used - lwmblocks) == used - lwmblocks == Signed(used - lwmblocks);
    var tot := (used - lwmblocks) * bsize;
    assert Wrap(tot) == tot && Signed(tot) == tot;
  }

  // ---- a whole run

  /**
   What a run comes to when no candidate resists removal: the files that are gone are
   those for which the older candidates do not suffice; none of them is newer than one
   that stays; enough is gone iff there was enough; and no more than needed, up to the
   last file.
   */
  ghost predicate Outcome(candidates: set<FileInfo>, gone: set<FileInfo>, wanted: int, bevicted: nat, last: Option<FileInfo>) {
    && gone <= candidates && bevicted == Size(gone)
    && (Distinct(candidates) ==>
         forall f | f in candidates :: f in gone <==> Size(Older(candidates, f.usetime)) < wanted)
    && (forall e, s | e in gone && s in candidates - gone :: e.usetime <= s.usetime)
    && (bevicted >= wanted <==> Size(candidates) >= wanted)
    && (last.None? ==> gone == {})
    && (last.Some? ==> IsLatest(last.value, gone) && bevicted - last.value.size < wanted)
  }

  lemma OutcomeOf(candidates: set<FileInfo>, heap: set<FileInfo>, total: int, wanted: int, stuck: set<FileInfo>,
                  heap': set<FileInfo>, bevicted: nat, fevicted: nat, last: Option<FileInfo>)
    requires Skipped(candidates, heap, total) && wanted <= total && candidates !! stuck
    requires Drained(heap, heap', stuck, wanted, bevicted, fevicted, last)
    ensures Outcome(candidates, heap - heap', wanted, bevicted, last)
  {
    hide Size, Older, Skipped, Covered, PoppedFrom, IsLatest, Distinct;
    HeapAmongCandidates(candidates, heap, total);
    var gone := heap - heap';
    NoneStuck(candidates, heap, heap', stuck);
    SkippedIsCovered(candidates, heap, total, wanted, stuck);
    if Distinct(candidates) {
      ExactlyGone(candidates, heap, wanted, stuck, gone);
    }
    forall e, s | e in gone && s in candidates - gone
      ensures e.usetime <= s.usetime
    {
      EvictedNeverNewer(candidates, heap, wanted, stuck, gone, e, s);
    }
    EnoughGone(candidates, heap, total, wanted, stuck, gone);
  }

  lemma ExactlyGone(candidates: set<FileInfo>, heap: set<FileInfo>, wanted: int, stuck: set<FileInfo>,
                    gone: set<FileInfo>)
    requires Covered(candidates, heap, stuck, wanted) && candidates !! stuck
    requires PoppedFrom(heap, gone, stuck, wanted) && Distinct(candidates)
    ensures forall f | f in candidates :: f in gone <==> Size(Older(candidates, f.usetime)) < wanted
  {
    hide Size, Older, Covered, PoppedFrom, Distinct;
    forall f | f in candidates
      ensures f in gone <==> Size(Older(candidates, f.usetime)) < wanted
    {
      SkipExact(candidates, heap, wanted, stuck, gone, f);
      OlderNotStuck(candidates, f.usetime, stuck);
    }
  }

  lemma NoneStuck(candidates: set<FileInfo>, heap: set<FileInfo>, heap': set<FileInfo>, stuck: set<FileInfo>)
    requires heap <= candidates && candidates !! stuck
    ensures heap !! stuck && heap - heap' - stuck == heap - heap' && heap - heap' <= candidates
  {}

  lemma OlderNotStuck(candidates: set<FileInfo>, t: nat, stuck: set<FileInfo>)
    requires candidates !! stuck
    ensures Older(candidates, t) - stuck == Older(candidates, t)
  {}

  lemma EnoughGone(candidates: set<FileInfo>, heap: set<FileInfo>, total: int, wanted: int, stuck: set<FileInfo>,
                   gone: set<FileInfo>)
    requires Skipped(candidates, heap, total) && wanted <= total && candidates !! stuck
    requires PoppedFrom(heap, gone, stuck, wanted)
    ensures Size(gone) >= wanted <==> Size(candidates) >= wanted
  {
    SizeSubset(gone, candidates);
    assert gone - stuck == gone;
    if Size(gone) < wanted {
      assert gone == heap;
      if g :| g in candidates && g !in heap {
        SizeSubset(Older(heap, g.usetime), heap);
      } else {
        assert heap == candidates;
      }
    }
  }

  lemma GoneAreEvictable(entries: seq<Entry>, gone: set<FileInfo>)
    requires gone <= Candidates(entries)
    ensures forall f | f in gone :: exists e :: e in entries && Evictable(e, f)
  {
    hide Candidates, Evictable;
    forall f | f in gone
      ensures exists e :: e in entries && Evictable(e, f)
    {
      CandidatesExactly(entries, f);
    }
  }

  method OneLru(lctx: LruCtx, wm: Watermarks, blocks: U64, bavail: U64, bsize: I64, entries: seq<Entry>,
                stay: set<FileInfo>, stuck: set<FileInfo>)
      returns (ran: bool, bevicted: nat, ghost gone: set<FileInfo>, ghost last: Option<FileInfo>)
    requires lctx.Valid() && lctx.totsize == 0 && lctx.heap == {} && lctx.oldwork == [] && DistinctNames(entries)
    requires EvictTotal(blocks, bavail, bsize, wm).Some?
    modifies lctx
    ensures
      var total := EvictTotal(blocks, bavail, bsize, wm).value;
      var wanted := total - Freed(OldWorkOf(entries), stay);
      && (ran <==> total >= MIN_EVICT && NoneFails(entries))
      && (ran ==> lctx.totsize == wanted - bevicted)
      && (forall f | f in gone :: exists e :: e in entries && Evictable(e, f))
      && (ran && Candidates(entries) !! stuck ==> Outcome(Candidates(entries), gone, wanted, bevicted, last))
      && (!ran ==> bevicted == 0)
  {
    hide Skipped, Drained, Outcome, LruCtx.Valid, Candidates, OldWorkOf, NoneFails, Freed, EvictTotal, Evictable;
    ran, bevicted, gone, last := false, 0, {}, None;
    lctx.EvictSize(blocks, bavail, bsize, wm);
    if lctx.totsize < MIN_EVICT {
      return;
    }
    var ok := lctx.WalkAll(entries);
    if !ok {
      return;
    }
    ran := true;
    ghost var heap, total := lctx.heap, lctx.totsize;
    var fevicted;
    bevicted, fevicted, last := lctx.Evict(stay, stuck);
    gone := heap - lctx.heap;
    HeapAmongCandidates(Candidates(entries), heap, total);
    GoneAreEvictable(entries, gone);
    if Candidates(entries) !! stuck {
      OutcomeOf(Candidates(entries), heap, total, total - Freed(lctx.oldwork, stay), stuck, lctx.heap, bevicted, fevicted, last);
    }
  }

  lemma Distribute(a: int, b: int, c: int)
    ensures (a - b) * c == a * c - b * c
  {}

  /** In bytes: the run ends at or below the low watermark iff nothing is left to evict. */
  lemma LowWatermarkReached(blocks: U64, bavail: U64, bsize: I64, wm: Watermarks, removed: nat, totsize: int)
    requires Checked(wm) && 0 < blocks && bavail <= blocks && blocks * 100 < TWO_TO_THE_64
    requires 0 < bsize && blocks * bsize < 0x8000_0000_0000_0000
    requires (blocks - bavail) * 100 / blocks >= wm.high
    requires EvictTotal(blocks, bavail, bsize, wm).Some?
    requires EvictTotal(blocks, bavail, bsize, wm).value == removed + totsize
    ensures (blocks - bavail) * bsize - removed <= blocks * wm.low / 100 * bsize <==> totsize <= 0
  {
    hide EvictTotal, Checked;
    EvictSizeExact(blocks, bavail, bsize, wm);
    Distribute(blocks - bavail, blocks * wm.low / 100, bsize);
  }
}
