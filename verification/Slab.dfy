/**
 One slab of reusable buffers, memsys/mem.go: two rings of free buffers, `get` with a
 moving position and `put`, swapped when `get` runs dry. The optional second-level
 pool is switched off in the source and is not modelled; each operation runs under the
 slab's mutexes, so it is one atomic step (`reduce` is two: it holds them in turn).
 */
module Slab {
  import opened Wrappers

  const MAXDEPTH: nat := 24576

  type Buffer = array<Byte>
  type Ring = seq<array?<Byte>>

  datatype Stats = Stats(hits: nat, miss: nat)

  /** What the slab does not write down itself. */
  datatype Book = Book(
    holder: map<Buffer, object>,   // buffers handed out, with the object that holds each
    free: set<array?<Byte>>,       // buffers in the pool
    created: nat,
    allocs: nat,
    reclaimed: nat,                // let go by reduce and cleanup
    overflowed: nat)               // given back to a full ring

  // ---- what holds of a slab at all times

  /** Free buffers are real, of the right size, listed once, and in nobody's hands. */
  ghost predicate PoolOk(pool: Ring, outstanding: set<Buffer>, size: nat) {
    && NoDup(pool)
    && (forall b :: b in pool ==> b != null && b.Length == size && b !in outstanding)
    && (forall b :: b in outstanding ==> b.Length == size)
  }

  ghost function AsSet(pool: Ring): set<array?<Byte>> {
    set b | b in pool
  }

  /** The rings are within bounds, the pool is sound, and every buffer and every call is accounted for. */
  ghost predicate Ok(get: Ring, pos: nat, put: Ring, stats: Stats, book: Book, size: nat) {
    && size > 0
    && pos <= |get| <= MAXDEPTH && |put| <= MAXDEPTH
    && PoolOk(get[pos..] + put, book.holder.Keys, size)
    && book.free == AsSet(get[pos..] + put)
    && book.created == |book.holder| + (|get| - pos) + |put| + book.reclaimed + book.overflowed
    && stats.hits + stats.miss == book.allocs
  }

  // ---- the moves that keep it so

  function Counted(stats: Stats, missed: bool): Stats {
    if missed then stats.(miss := stats.miss + 1) else stats.(hits := stats.hits + 1)
  }

  ghost function HandedOut(book: Book, buf: Buffer, who: object): Book {
    book.(holder := book.holder[buf := who], free := book.free - {buf}, allocs := book.allocs + 1)
  }

  lemma TakeOk(get: Ring, pos: nat, put: Ring, stats: Stats, book: Book, size: nat, missed: bool, who: object)
    requires Ok(get, pos, put, stats, book, size) && pos < |get|
    ensures get[pos] != null && get[pos].Length == size
    ensures get[pos] !in book.holder && get[pos] in book.free
    ensures Ok(get, pos + 1, put, Counted(stats, missed), HandedOut(book, get[pos], who), size)
  {
    var pool, buf := get[pos..] + put, get[pos];
    assert pool[0] == buf && get[pos + 1..] + put == pool[1..];
    PoolTake(pool, book.holder.Keys, size);
    assert book.holder[buf := who].Keys == book.holder.Keys + {buf};
  }

  lemma PoolTake(pool: Ring, outstanding: set<Buffer>, size: nat)
    requires PoolOk(pool, outstanding, size) && |pool| > 0
    ensures pool[0] != null && pool[0].Length == size && pool[0] !in outstanding && pool[0] in AsSet(pool)
    ensures PoolOk(pool[1..], outstanding + {pool[0]}, size)
    ensures AsSet(pool[1..]) == AsSet(pool) - {pool[0]}
  {
    var first, rest := pool[0], pool[1..];
    assert pool == [first] + rest;
    assert forall i :: 0 <= i < |rest| ==> rest[i] == pool[i + 1];
    assert first in pool && first !in rest;
    forall x
      ensures x in rest <==> x in pool && x != first
    {
      assert x in pool <==> x == first || x in rest;
    }
  }

  ghost function Made(book: Book, buf: Buffer): Book {
    book.(free := book.free + {buf}, created := book.created + 1)
  }

  lemma MakeOk(get: Ring, pos: nat, put: Ring, stats: Stats, book: Book, size: nat, buf: Buffer)
    requires Ok(get, pos, put, stats, book, size) && |put| < MAXDEPTH
    requires buf !in book.free && buf !in book.holder && buf.Length == size
    ensures Ok(get, pos, put + [buf], stats, Made(book, buf), size)
  {
    var pool := get[pos..] + put;
    assert get[pos..] + (put + [buf]) == pool + [buf];
    assert buf !in pool by {
      assert buf in pool ==> buf in AsSet(pool);
    }
  }

  ghost function GivenBack(book: Book, buf: Buffer, kept: bool): Book {
    if kept then book.(holder := book.holder - {buf}, free := book.free + {buf})
    else book.(holder := book.holder - {buf}, overflowed := book.overflowed + 1)
  }

  lemma GiveOk(get: Ring, pos: nat, put: Ring, stats: Stats, book: Book, size: nat, buf: Buffer)
    requires Ok(get, pos, put, stats, book, size) && buf in book.holder
    ensures |put| < MAXDEPTH ==> Ok(get, pos, put + [buf], stats, GivenBack(book, buf, true), size)
    ensures Ok(get, pos, put, stats, GivenBack(book, buf, false), size)
  {
    var pool := get[pos..] + put;
    assert get[pos..] + (put + [buf]) == pool + [buf];
    assert (book.holder - {buf}).Keys == book.holder.Keys - {buf};
  }

  ghost function Dropped(book: Book, left: Ring, cnt: nat): Book {
    book.(free := AsSet(left), reclaimed := book.reclaimed + cnt)
  }

  /** Any stretch of the pool may be let go at either end. */
  lemma DropOk(get: Ring, pos: nat, put: Ring, stats: Stats, book: Book, size: nat,
               get': Ring, pos': nat, put': Ring, a: nat, b: nat)
    requires Ok(get, pos, put, stats, book, size)
    requires pos' <= |get'| <= MAXDEPTH && |put'| <= MAXDEPTH
    requires a <= b <= |get[pos..] + put| && get'[pos'..] + put' == (get[pos..] + put)[a..b]
    ensures Ok(get', pos', put', stats, Dropped(book, get'[pos'..] + put', |get| - pos + |put| - (b - a)), size)
    ensures AsSet(get'[pos'..] + put') <= book.free
  {
    var pool, left := get[pos..] + put, get'[pos'..] + put';
    assert forall i :: 0 <= i < |left| ==> left[i] == pool[a + i];
    assert forall x :: x in left ==> x in pool;
  }

  // ---- how much `reduce` lets go

  /** How many buffers are made when `get` is used up and `put` has `len`: up to the depth to grow to, and one at least. */
  function ToGrow(len: nat, minDepth: nat): (cnt: nat)
    ensures len + cnt == Max(len, Max(1, minDepth))
  {
    var depth := if minDepth == 0 then 1 else minDepth;
    if depth > len then depth - len else 0
  }

  /** How many of `len` free buffers `reduce` lets go. */
  function ToDrop(len: nat, todepth: nat, isIdle: bool, force: bool): (cnt: nat)
    ensures cnt <= len
    ensures !isIdle ==> len - cnt == Min(len, todepth)
    ensures isIdle && force ==> len - cnt == Min(todepth, len - len / 2)
    ensures isIdle && !force ==> len - cnt == if len <= todepth then len else Max(todepth, len - len / 2)
  {
    var cnt := len - todepth;
    var want := if isIdle then (if force then Max(cnt, len / 2) else Min(cnt, len / 2)) else cnt;
    if want > 0 then want else 0
  }

  class Slab2 {
    const bufsize: nat
    var get: Ring
    var put: Ring
    var pos: nat
    var stats: Stats
    /** The ring depth to grow to, shared by all slabs. */
    var minDepth: nat
    ghost var book: Book

    ghost predicate Valid()
      reads this
    {
      minDepth <= MAXDEPTH && Ok(get, pos, put, stats, book, bufsize)
    }

    /** A buffer in somebody's hands is not in the pool. */
    lemma HeldIsNotFree(b: Buffer)
      requires Valid() && b in book.holder
      ensures b !in book.free
    {
      assert forall x :: x in AsSet(get[pos..] + put) ==> x in get[pos..] + put;
    }

    constructor (bufsize: nat, minDepth: nat)
      requires bufsize > 0 && minDepth <= MAXDEPTH
      ensures Valid() && this.bufsize == bufsize
      ensures book == Book(map[], {}, 0, 0, 0, 0)
    {
      this.bufsize, this.minDepth := bufsize, minDepth;
      get, put, pos, stats := [], [], 0, Stats(0, 0);
      book := Book(map[], {}, 0, 0, 0, 0);
    }

    /** The depth to grow to from now on. */
    method SetMinDepth(depth: nat)
      requires Valid() && depth <= MAXDEPTH
      modifies this`minDepth
      ensures Valid() && minDepth == depth
    {
      minDepth := depth;
    }

    /** A buffer nobody holds, taken from the pool or newly made. */
    method Alloc(ghost who: object) returns (buf: Buffer, ghost made: set<array?<Byte>>)
      requires Valid()
      modifies this
      ensures Valid() && minDepth == old(minDepth) && buf.Length == bufsize
      ensures buf !in old(book).holder && book.holder == old(book).holder[buf := who]
      ensures fresh(made) && buf in old(book).free + made && book.free <= old(book).free + made
      ensures book.allocs == old(book).allocs + 1 && book.reclaimed == old(book).reclaimed
      ensures book.created == old(book).created +
                if old(|get| > pos) then 0 else ToGrow(old(|put|), old(minDepth))
      ensures made != {} <==> book.created > old(book).created
      ensures stats == Counted(old(stats), made != {})
    {
      made := {};
      if |get| > pos {
        buf := Take(false, who);
        return;
      }
      buf, made := AllocSlow(who);
    }

    /** The buffer at the position of `get`, which moves on; a hit or a miss is counted. */
    method Take(missed: bool, ghost who: object) returns (buf: Buffer)
      requires Valid() && |get| > pos
      modifies this`pos, this`stats, this`book
      ensures Valid() && buf.Length == bufsize
      ensures buf !in old(book).holder && buf in old(book).free
      ensures book == HandedOut(old(book), buf, who) && stats == Counted(old(stats), missed)
    {
      TakeOk(get, pos, put, stats, book, bufsize, missed, who);
      hide Ok;
      buf := get[pos];
      pos := pos + 1;
      stats := if missed then stats.(miss := stats.miss + 1) else stats.(hits := stats.hits + 1);
      book := HandedOut(book, buf, who);
    }

    method AllocSlow(ghost who: object) returns (buf: Buffer, ghost made: set<array?<Byte>>)
      requires Valid() && |get| == pos
      modifies this
      ensures Valid() && minDepth == old(minDepth) && buf.Length == bufsize
      ensures buf !in old(book).holder && book.holder == old(book).holder[buf := who]
      ensures fresh(made) && buf in old(book).free + made && book.free <= old(book).free + made
      ensures book.allocs == old(book).allocs + 1 && book.reclaimed == old(book).reclaimed
      ensures book.created == old(book).created + ToGrow(old(|put|), old(minDepth))
      ensures made != {} <==> book.created > old(book).created
      ensures stats == Counted(old(stats), made != {})
    {
      var curMinDepth := if minDepth == 0 then 1 else minDepth;
      var missed := false;
      made := {};
      if curMinDepth > |put| {
        made := Grow(curMinDepth - |put|);
        missed := true;
      }
      Swap();
      buf := Take(missed, who);
    }

    /** The rings change places; nothing is lost, because `get` has been used up. */
    method Swap()
      requires Valid() && |get| == pos
      modifies this`get, this`put, this`pos
      ensures Valid() && get == old(put) && put == [] && pos == 0
    {
      assert get[pos..] + put == put[0..] + [];
      get, put := put, [];
      pos := 0;
    }

    /** New buffers, appended to `put`. */
    method Grow(cnt: nat) returns (ghost made: set<array?<Byte>>)
      requires Valid() && |put| + cnt <= MAXDEPTH
      modifies this`put, this`book
      ensures Valid() && |put| == old(|put|) + cnt
      ensures fresh(made) && book.free <= old(book).free + made
      ensures book == old(book).(free := book.free, created := old(book).created + cnt)
      ensures made != {} <==> cnt > 0
    {
      made := {};
      for i := 0 to cnt
        invariant Valid() && |put| == old(|put|) + i
        invariant fresh(made) && book.free <= old(book).free + made
        invariant book == old(book).(free := book.free, created := old(book).created + i)
        invariant made != {} <==> i > 0
      {
        hide Ok;
        var buf := Make();
        made := made + {buf};
      }
    }

    method Make() returns (buf: Buffer)
      requires Valid() && |put| < MAXDEPTH
      modifies this`put, this`book
      ensures Valid() && fresh(buf) && put == old(put) + [buf]
      ensures book == Made(old(book), buf)
    {
      buf := new Byte[bufsize];
      MakeOk(get, pos, put, stats, book, bufsize, buf);
      hide Ok;
      put := put + [buf];
      book := Made(book, buf);
    }

    method Free(buf: Buffer)
      requires Valid() && buf in book.holder
      modifies this`put, this`book
      ensures Valid() && book == GivenBack(old(book), buf, old(|put|) < MAXDEPTH)
      ensures put == if old(|put|) < MAXDEPTH then old(put) + [buf] else old(put)
    {
      GiveOk(get, pos, put, stats, book, bufsize, buf);
      hide Ok;
      book := GivenBack(book, buf, |put| < MAXDEPTH);
      if |put| < MAXDEPTH {
        put := put + [buf];
      }
    }

    /** First half of reduce, under the `put` mutex: drop from the end of `put`. */
    method ReducePut(todepth: nat, isIdle: bool, force: bool) returns (freed: nat)
      requires Valid()
      modifies this`put, this`book
      ensures Valid() && |put| == old(|put|) - ToDrop(old(|put|), todepth, isIdle, force)
      ensures put == old(put)[..|put|]
      ensures book.free <= old(book).free
      ensures book == old(book).(free := book.free, reclaimed := book.reclaimed)
      ensures book.reclaimed == old(book).reclaimed + ToDrop(old(|put|), todepth, isIdle, force)
      ensures freed == bufsize * (book.reclaimed - old(book).reclaimed)
    {
      var lput := |put|;
      var cnt := ToDrop(lput, todepth, isIdle, force);
      ghost var left := put[..|put| - cnt];
      var n := |get| - pos;
      assert get[pos..] + left == (get[pos..] + put)[0..n + |left|];
      DropOk(get, pos, put, stats, book, bufsize, get, pos, left, 0, n + |left|);
      hide Ok;
      freed := 0;
      for i := 0 to cnt
        modifies this`put
        invariant lput == |left| + cnt - i && |put| == |left| + cnt
        invariant put[..lput] == old(put)[..lput]
        invariant freed == bufsize * i
      {
        lput := lput - 1;
        put := put[lput := null];
        freed := freed + bufsize;
        MulNext(bufsize, i);
      }
      put := put[..lput];
      book := Dropped(book, get[pos..] + left, cnt);
    }

    /** Second half of reduce, under the `get` mutex: drop from the front of `get`. */
    method ReduceGet(todepth: nat, isIdle: bool, force: bool) returns (freed: nat)
      requires Valid()
      modifies this`get, this`pos, this`book
      ensures Valid() && |get| == old(|get|)
      ensures pos == old(pos) + ToDrop(old(|get| - pos), todepth, isIdle, force)
      ensures get[pos..] == old(get)[pos..]
      ensures book.free <= old(book).free
      ensures book == old(book).(free := book.free, reclaimed := book.reclaimed)
      ensures book.reclaimed == old(book).reclaimed + ToDrop(old(|get| - pos), todepth, isIdle, force)
      ensures freed == bufsize * (book.reclaimed - old(book).reclaimed)
    {
      var cnt := ToDrop(|get| - pos, todepth, isIdle, force);
      ghost var get0, pos0, stats0, book0 := get, pos, stats, book;
      freed := 0;
      for i := 0 to cnt
        modifies this`get, this`pos
        invariant pos == pos0 + i && |get| == |get0|
        invariant get[pos..] == get0[pos..]
        invariant freed == bufsize * i
      {
        hide Ok;
        get := get[pos := null];
        pos := pos + 1;
        freed := freed + bufsize;
        MulNext(bufsize, i);
      }
      ghost var pool := get0[pos0..] + put;
      assert get[pos..] + put == pool[cnt..|pool|];
      DropOk(get0, pos0, put, stats, book, bufsize, get, pos, put, cnt, |pool|);
      hide Ok;
      book := Dropped(book, get[pos..] + put, cnt);
    }

    method Reduce(todepth: nat, isIdle: bool, force: bool) returns (freed: nat)
      requires Valid()
      modifies this`get, this`put, this`pos, this`book
      ensures Valid() && book.free <= old(book).free
      ensures book == old(book).(free := book.free, reclaimed := book.reclaimed)
      ensures freed == bufsize * (book.reclaimed - old(book).reclaimed)
      ensures !isIdle || force ==> |put| <= todepth && |get| - pos <= todepth
    {
      var f1 := ReducePut(todepth, isIdle, force);
      ghost var dropped := book.reclaimed - old(book).reclaimed;
      var f2 := ReduceGet(todepth, isIdle, force);
      freed := f1 + f2;
      assert freed == bufsize * dropped + bufsize * (book.reclaimed - old(book).reclaimed - dropped);
    }

    method Cleanup() returns (freed: nat)
      requires Valid()
      modifies this`get, this`put, this`pos, this`book
      ensures Valid() && get == [] && put == [] && pos == 0 && book.free == {}
      ensures book == old(book).(free := {}, reclaimed := book.reclaimed)
      ensures book.reclaimed == old(book).reclaimed + old(|get| - pos + |put|)
      ensures freed == bufsize * (book.reclaimed - old(book).reclaimed)
    {
      freed := 0;
      var n := |get| - pos;
      ghost var none: Ring := [];
      assert none[0..] + none == (get[pos..] + put)[0..0];
      DropOk(get, pos, put, stats, book, bufsize, none, 0, none, 0, 0);
      hide Ok;
      var lget := |get|;
      ghost var i := 0;
      while lget > pos
        modifies this`get, this`pos
        invariant lget == |get| && pos == old(pos) + i && pos <= lget
        invariant freed == bufsize * i
      {
        get := get[pos := null];
        pos := pos + 1;
        freed := freed + bufsize;
        MulNext(bufsize, i);
        i := i + 1;
      }
      for k := 0 to |put|
        modifies this`put
        invariant |put| == old(|put|) && freed == bufsize * (n + k)
      {
        freed := freed + bufsize;
        put := put[k := null];
        MulNext(bufsize, n + k);
      }
      book := Dropped(book, none[0..] + none, n + |put|);
      get, put, pos := [], [], 0;
    }
  }

  lemma MulNext(size: nat, i: nat)
    ensures size * (i + 1) == size * i + size
  {}
}
