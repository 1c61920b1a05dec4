/**
 Everything that one slab serves at the same time: scatter-gather lists, and buffers
 allocated directly. Every operation of memsys/mem.go and memsys/iosgl.go keeps each
 buffer with one owner, so owners do not disturb each other.
 */
module Arena {
  import opened Wrappers
  import opened Slab
  import Mem
  import opened Sgl

  class Arena {
    const slab: Slab2
    var lists: set<SGL>
    /** Buffers held through the slab's own Alloc. */
    var loose: seq<Buffer>

    ghost predicate Valid()
      reads *
    {
      && slab.Valid()
      && NoDup(loose) && HeldIn(loose, this, slab.book.holder)
      && forall s :: s in lists ==> s.slab == slab && s.Valid()
    }

    /** List `t` reads as it did before. */
    twostate predicate SameBytes(t: SGL)
      reads t, t.sgl
    {
      old(t.Shape()) && t.Shape() && t.Contents() == old(t.Contents())
    }

    constructor (bufsize: nat, minDepth: nat)
      requires bufsize > 0 && minDepth <= MAXDEPTH
      ensures Valid() && lists == {} && loose == []
    {
      slab := new Slab2(bufsize, minDepth);
      lists, loose := {}, [];
    }

    /** No buffer has two owners, and no owned buffer is free. */
    lemma OneOwner(s: SGL, t: SGL, b: Buffer)
      requires Valid() && s in lists && t in lists && b in s.sgl
      ensures s != t ==> b !in t.sgl
      ensures b !in loose && b !in slab.book.free
    {
      assert slab.book.holder[b] == s;
      slab.HeldIsNotFree(b);
    }

    lemma Separate(s: SGL)
      requires Valid() && s in lists
      ensures forall t, b :: t in lists && t != s && b in t.sgl ==> b !in s.sgl && b !in slab.book.free
    {
      forall t, b | t in lists && t != s && b in t.sgl ensures b !in s.sgl && b !in slab.book.free {
        OneOwner(t, s, b);
      }
    }

    /** Writing one list changes what no other list holds. */
    method Write(s: SGL, p: seq<Byte>)
      requires Valid() && s in lists
      modifies s, slab, s.sgl, slab.book.free
      ensures Valid() && s.Shape()
      ensures s.Contents() == old(s.Contents()) + p
      ensures forall t :: t in lists && t != s ==> SameBytes(t)
    {
      hide Slab2.Valid, SGL.Shape, SGL.Queue, SGL.Contents, HeldIn, Kept, Without, NoDup;
      Separate(s);
      ghost var held := slab.book.holder;
      var _ := s.Write(p);
      KeptHeld(loose, this, held, slab.book.holder);
      forall t | t in lists && t != s ensures t.Valid() && SameBytes(t) {
        assert old(t.Queue()) && old(t.Shape());
        KeptHeld(t.sgl, t, held, slab.book.holder);
      }
    }

    /** A list reads without disturbing any list, itself included. */
    method Read(s: SGL, b: array<Byte>) returns (n: nat, eof: bool)
      requires Valid() && s in lists && b !in slab.book.holder
      modifies s`roff, s`taken, b
      ensures Valid()
      ensures forall t :: t in lists ==> SameBytes(t)
      ensures n <= b.Length && s.taken == old(s.taken) + b[..n]
    {
      assert forall t :: t in lists ==> b !in t.sgl;
      hide Slab2.Valid, SGL.Shape, SGL.Queue, SGL.Contents, HeldIn, Kept, Without, NoDup;
      n, eof := s.Read(b);
      forall t | t in lists && t != s ensures t.Valid() && SameBytes(t) {
        assert old(t.Queue()) && old(t.Shape());
      }
    }

    method Reduce(todepth: nat, isIdle: bool, force: bool) returns (freed: nat)
      requires Valid()
      modifies slab
      ensures Valid() && freed == slab.bufsize * (slab.book.reclaimed - old(slab.book).reclaimed)
      ensures forall t :: t in lists ==> SameBytes(t)
    {
      hide Slab2.Valid, SGL.Shape, SGL.Queue, SGL.Contents, HeldIn, Kept, Without, NoDup;
      freed := slab.Reduce(todepth, isIdle, force);
      forall t | t in lists ensures t.Valid() && SameBytes(t) {
        assert old(t.Queue()) && old(t.Shape());
      }
    }

    /**
     What the periodic `work` does to this slab: a new depth to grow to, and, when memory is
     short and garbage collection did not end the round before, both rings cut.
     */
    method Work(free: nat, minFree: nat, lowwm: nat, swapping: bool, isIdle: bool, reached: bool) returns (freed: nat)
      requires Valid() && lowwm > minFree
      modifies slab
      ensures Valid() && slab.minDepth == Mem.Work(free, minFree, lowwm, swapping).minDepth
      ensures freed == slab.bufsize * (slab.book.reclaimed - old(slab.book).reclaimed)
      ensures
        var d := Mem.Work(free, minFree, lowwm, swapping);
        d.cut && reached ==> |slab.put| <= d.depth && |slab.get| - slab.pos <= d.depth
      ensures forall t :: t in lists ==> SameBytes(t)
    {
      hide Slab2.Valid, SGL.Shape, SGL.Queue, SGL.Contents, HeldIn, Kept, Without, NoDup;
      var d := Mem.Work(free, minFree, lowwm, swapping);
      slab.SetMinDepth(d.minDepth);
      freed := 0;
      if d.cut && reached {
        freed := slab.Reduce(d.depth, isIdle, true);
      }
      forall t | t in lists ensures t.Valid() && SameBytes(t) {
        assert old(t.Queue()) && old(t.Shape());
      }
    }

    method Cleanup() returns (freed: nat)
      requires Valid()
      modifies slab
      ensures Valid() && freed == slab.bufsize * (slab.book.reclaimed - old(slab.book).reclaimed)
      ensures forall t :: t in lists ==> SameBytes(t)
    {
      hide Slab2.Valid, SGL.Shape, SGL.Queue, SGL.Contents, HeldIn, Kept, Without, NoDup;
      freed := slab.Cleanup();
      forall t | t in lists ensures t.Valid() && SameBytes(t) {
        assert old(t.Queue()) && old(t.Shape());
      }
    }

    /** A buffer for direct use: nobody held it. */
    method Alloc() returns (buf: Buffer)
      requires Valid()
      modifies this`loose, slab
      ensures Valid() && loose == old(loose) + [buf]
      ensures buf !in old(slab.book).holder
      ensures forall t :: t in lists ==> SameBytes(t)
    {
      hide Slab2.Valid, SGL.Shape, SGL.Queue, SGL.Contents, HeldIn, Kept, Without, NoDup;
      ghost var held := slab.book.holder;
      ghost var made;
      buf, made := slab.Alloc(this);
      KeptAll(held);
      KeptMore(held, held, buf, this);
      KeptHeld(loose, this, held, slab.book.holder);
      HeldOneMore(loose, buf, this, held);
      loose := loose + [buf];
      forall t | t in lists ensures t.Valid() && SameBytes(t) {
        assert old(t.Queue()) && old(t.Shape());
        KeptHeld(t.sgl, t, held, slab.book.holder);
      }
    }

    method FreeBuffer(k: nat)
      requires Valid() && k < |loose|
      modifies this`loose, slab
      ensures Valid() && loose == old(loose[..k] + loose[k + 1..])
      ensures forall t :: t in lists ==> SameBytes(t)
    {
      hide Slab2.Valid, SGL.Shape, SGL.Queue, SGL.Contents, HeldIn, Kept, Without, NoDup;
      ghost var held := slab.book.holder;
      HeldOneLess(loose, k, this, held);
      slab.Free(loose[k]);
      forall t | t in lists ensures t.Valid() && SameBytes(t) {
        assert old(t.Queue()) && old(t.Shape());
        HeldByOther(t.sgl, t, loose[k], this, held);
      }
      loose := loose[..k] + loose[k + 1..];
    }

    /** A new, empty list with room for `immediateSize` bytes. */
    method NewSGL(immediateSize: nat) returns (s: SGL)
      requires Valid()
      modifies this`lists, slab
      ensures Valid() && fresh(s) && lists == old(lists) + {s}
      ensures s.Contents() == [] && s.Cap() >= immediateSize
      ensures forall t :: t in old(lists) ==> SameBytes(t)
    {
      hide Slab2.Valid, SGL.Shape, SGL.Queue, SGL.Contents, HeldIn, Kept, Without, NoDup;
      ghost var held := slab.book.holder;
      s := new SGL(slab);
      ghost var _ := s.Grow(immediateSize);
      KeptHeld(loose, this, held, slab.book.holder);
      forall t | t in lists ensures t.Valid() && SameBytes(t) {
        assert old(t.Queue()) && old(t.Shape());
        KeptHeld(t.sgl, t, held, slab.book.holder);
      }
      lists := lists + {s};
    }

    /** A list gives its buffers back and leaves. */
    method FreeSGL(s: SGL)
      requires Valid() && s in lists
      modifies this`lists, s, slab
      ensures Valid() && lists == old(lists) - {s}
      ensures forall t :: t in lists ==> SameBytes(t)
    {
      hide Slab2.Valid, SGL.Shape, SGL.Queue, SGL.Contents, HeldIn, Kept, Without, NoDup;
      Separate(s);
      ghost var held := slab.book.holder;
      ghost var gone := s.sgl;
      s.Free();
      WithoutHeld(loose, this, gone, s, held);
      lists := lists - {s};
      forall t | t in lists ensures t.Valid() && SameBytes(t) {
        assert old(t.Queue()) && old(t.Shape());
        WithoutHeld(t.sgl, t, gone, s, held);
      }
    }
  }
}
