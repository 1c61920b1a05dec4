/**
 Scatter-gather lists over the buffers of one slab, memsys/iosgl.go: a growing byte
 stream with a read position, plus readers that keep their own position.

 The optional running hash is left out. A destination slice `b` of the source is an
 array and a length here, so that it can be shortened as the source does.
 */
module Sgl {
  import opened Wrappers
  import opened ScatterGather
  import opened Slab

  /** The contents of the buffers, one row each. */
  ghost function Rows(bufs: seq<Buffer>): seq<seq<Byte>>
    reads bufs
  {
    seq(|bufs|, i requires 0 <= i < |bufs| reads bufs => bufs[i][..])
  }

  /** The first `w` bytes across the buffers. */
  ghost function StreamOf(bufs: seq<Buffer>, w: nat): seq<Byte>
    reads bufs
  {
    var all := Flat(Rows(bufs));
    if w <= |all| then all[..w] else []
  }

  lemma RowsEven(bufs: seq<Buffer>, size: nat)
    requires forall b :: b in bufs ==> b.Length == size
    ensures Even(Rows(bufs), size) && |Flat(Rows(bufs))| == |bufs| * size
  {
    FlatLength(Rows(bufs), size);
  }

  /** The slab's record says that `who` holds these buffers. */
  ghost predicate HeldIn(bufs: seq<Buffer>, who: object, holder: map<Buffer, object>) {
    forall b :: b in bufs ==> b in holder && holder[b] == who
  }

  /** Whoever held a buffer still holds it. */
  ghost predicate Kept(a: map<Buffer, object>, b: map<Buffer, object>) {
    forall x :: x in a ==> x in b && b[x] == a[x]
  }

  lemma KeptAll(a: map<Buffer, object>)
    ensures Kept(a, a)
  {}

  lemma KeptMore(a: map<Buffer, object>, b: map<Buffer, object>, x: Buffer, who: object)
    requires Kept(a, b) && x !in b
    ensures Kept(a, b[x := who])
  {}

  lemma KeptHeld(bufs: seq<Buffer>, who: object, a: map<Buffer, object>, b: map<Buffer, object>)
    requires HeldIn(bufs, who, a) && Kept(a, b)
    ensures HeldIn(bufs, who, b)
  {}

  ghost function Without(held: map<Buffer, object>, bufs: seq<Buffer>): map<Buffer, object> {
    held - set b | b in bufs
  }

  /** Giving back the buffers of one holder leaves those of another. */
  lemma WithoutHeld(bufs: seq<Buffer>, who: object, gone: seq<Buffer>, other: object, held: map<Buffer, object>)
    requires HeldIn(bufs, who, held) && HeldIn(gone, other, held) && who != other
    ensures HeldIn(bufs, who, Without(held, gone))
  {}

  lemma WithoutOneMore(held: map<Buffer, object>, bufs: seq<Buffer>, i: nat, who: object)
    requires i < |bufs| && NoDup(bufs) && HeldIn(bufs, who, held)
    ensures bufs[i] in Without(held, bufs[..i])
    ensures Without(held, bufs[..i + 1]) == Without(held, bufs[..i]) - {bufs[i]}
  {
    assert bufs[..i + 1] == bufs[..i] + [bufs[i]];
    assert bufs[i] !in bufs[..i];
  }

  lemma HeldOneMore(bufs: seq<Buffer>, buf: Buffer, who: object, held: map<Buffer, object>)
    requires HeldIn(bufs, who, held) && NoDup(bufs) && buf !in held
    ensures HeldIn(bufs + [buf], who, held[buf := who]) && NoDup(bufs + [buf])
  {}

  lemma HeldOneLess(bufs: seq<Buffer>, k: nat, who: object, held: map<Buffer, object>)
    requires HeldIn(bufs, who, held) && NoDup(bufs) && k < |bufs|
    ensures bufs[k] in held && held[bufs[k]] == who
    ensures HeldIn(bufs[..k] + bufs[k + 1..], who, held - {bufs[k]}) && NoDup(bufs[..k] + bufs[k + 1..])
  {}

  lemma HeldByOther(bufs: seq<Buffer>, who: object, buf: Buffer, other: object, held: map<Buffer, object>)
    requires HeldIn(bufs, who, held) && buf in held && held[buf] == other && who != other
    ensures HeldIn(bufs, who, held - {buf})
  {}

  /** From position `n` on, the buffers come from `src`. */
  ghost predicate From(bufs: seq<Buffer>, n: nat, src: set<array?<Byte>>) {
    forall k :: n <= k < |bufs| ==> bufs[k] in src
  }

  lemma FromMore(bufs: seq<Buffer>, n: nat, buf: Buffer, pool: set<array?<Byte>>, made: set<array?<Byte>>,
                 mid: set<array?<Byte>>, more: set<array?<Byte>>, end: set<array?<Byte>>)
    requires n <= |bufs| && From(bufs, n, pool + made)
    requires mid <= pool + made && buf in mid + more && end <= mid + more
    ensures From(bufs + [buf], n, pool + (made + more))
    ensures end <= pool + (made + more)
  {}

  /** Another buffer does not change the bytes before it. */
  lemma MoreRows(bufs: seq<Buffer>, buf: Buffer, size: nat, w: nat)
    requires forall b :: b in bufs ==> b.Length == size
    requires buf.Length == size && w <= |bufs| * size
    ensures w <= |bufs + [buf]| * size && w <= |Flat(Rows(bufs))| && w <= |Flat(Rows(bufs + [buf]))|
    ensures Flat(Rows(bufs + [buf]))[..w] == Flat(Rows(bufs))[..w]
  {
    hide Flat;
    RowsEven(bufs, size);
    assert Rows(bufs + [buf]) == Rows(bufs) + [buf[..]];
    FlatAppend(Rows(bufs), buf[..]);
    MulStep(|bufs|, size);
  }

  class SGL {
    var sgl: seq<Buffer>
    const slab: Slab2
    var woff: nat
    var roff: nat
    /** Everything handed out by Read since the last Reset. */
    ghost var taken: seq<Byte>

    /** The shape of the list, whatever the bytes. */
    ghost predicate Shape()
      reads this
    {
      && slab.bufsize > 0
      && NoDup(sgl)
      && (forall b :: b in sgl ==> b.Length == slab.bufsize)
      && woff <= |sgl| * slab.bufsize
    }

    /** The bytes written so far. */
    ghost function Contents(): (c: seq<Byte>)
      requires Shape()
      reads this, sgl
      ensures |c| == woff
    {
      RowsEven(sgl, slab.bufsize);
      StreamOf(sgl, woff)
    }

    /** What was read is a prefix of what was written. */
    ghost predicate Queue()
      reads this, sgl
    {
      Shape() && roff <= woff && taken == Contents()[..roff]
    }

    /** The slab knows this list as the holder of its buffers. */
    ghost predicate Held()
      reads this, slab
    {
      HeldIn(sgl, this, slab.book.holder)
    }

    ghost predicate Valid()
      reads this, slab, sgl
    {
      slab.Valid() && Held() && Shape() && Queue()
    }

    constructor (slab: Slab2)
      requires slab.Valid()
      ensures Valid() && this.slab == slab && sgl == [] && Contents() == []
    {
      this.slab := slab;
      sgl, woff, roff, taken := [], 0, 0, [];
    }

    function Cap(): nat
      reads this
    {
      |sgl| * slab.bufsize
    }

    /** One more buffer: the list and the slab change, never the bytes in a buffer. */
    method Append() returns (ghost made: set<array?<Byte>>)
      requires Valid()
      modifies this`sgl, slab
      ensures Valid() && Contents() == old(Contents())
      ensures |sgl| == old(|sgl|) + 1 && sgl == old(sgl) + [sgl[|sgl| - 1]]
      ensures Cap() == old(Cap()) + slab.bufsize
      ensures var b := sgl[|sgl| - 1];
              && b !in old(slab.book).holder && slab.book.holder == old(slab.book).holder[b := this]
              && b in old(slab.book).free + made
      ensures fresh(made) && slab.book.free <= old(slab.book).free + made
    {
      hide Slab2.Valid, Flat;
      var buf;
      buf, made := slab.Alloc(this);
      ghost var bufs := sgl;
      sgl := sgl + [buf];
      MoreRows(bufs, buf, slab.bufsize, woff);
      MulStep(|bufs|, slab.bufsize);
    }

    method Grow(toSize: nat) returns (ghost made: set<array?<Byte>>)
      requires Valid()
      modifies this`sgl, slab
      ensures Valid() && Contents() == old(Contents())
      ensures Cap() >= toSize
      ensures old(sgl) <= sgl
      ensures Kept(old(slab.book).holder, slab.book.holder)
      ensures fresh(made)
      ensures From(sgl, old(|sgl|), old(slab.book).free + made)
    {
      assert slab.bufsize > 0;
      made := {};
      ghost var pool, n0 := slab.book.free, |sgl|;
      assert From(sgl, n0, pool + made);
      hide *;
      KeptAll(slab.book.holder);
      while Cap() < toSize
        invariant Valid() && Contents() == old(Contents())
        invariant old(sgl) <= sgl
        invariant Kept(old(slab.book).holder, slab.book.holder)
        invariant fresh(made) && slab.book.free <= pool + made
        invariant From(sgl, n0, pool + made)
        decreases toSize - Cap()
      {
        ghost var held, bufs, mid := slab.book.holder, sgl, slab.book.free;
        ghost var more := Append();
        FromMore(bufs, n0, sgl[|sgl| - 1], pool, made, mid, more, slab.book.free);
        made := made + more;
        KeptMore(old(slab.book).holder, held, sgl[|sgl| - 1], this);
      }
    }

    /** One turn of the loop in Write: a chunk goes into one buffer at the write offset. */
    method Put(idx: nat, off: nat, chunk: seq<Byte>)
      requires Shape() && idx < |sgl| && woff == idx * slab.bufsize + off && off + |chunk| <= slab.bufsize
      modifies this`woff, sgl[idx]
      ensures Shape() && woff == old(woff) + |chunk|
      ensures Contents() == old(Contents()) + chunk
    {
      hide Flat;
      ghost var rows := Rows(sgl);
      RowsEven(sgl, slab.bufsize);
      FlatSplice(rows, slab.bufsize, idx, off, chunk);
      Store(sgl[idx], off, chunk);
      assert Rows(sgl) == rows[idx := Splice(rows[idx], off, chunk)];
      RowsEven(sgl, slab.bufsize);
      woff := woff + |chunk|;
    }

    /** The loop of Write, once there is room for all of `p`. */
    method Fill(p: seq<Byte>)
      requires Queue() && woff + |p| <= Cap()
      modifies this`woff, sgl
      ensures Queue() && woff == old(woff) + |p|
      ensures Contents() == old(Contents()) + p
    {
      hide Contents, NoDup;
      var size := slab.bufsize;
      var idx, off, poff := woff / size, woff % size, 0;
      while poff < |p|
        invariant poff <= |p| && woff == old(woff) + poff
        invariant 0 <= idx && 0 <= off < size && woff == idx * size + off
        invariant Shape()
        invariant Contents() == old(Contents()) + p[..poff]
      {
        var k := if size - off < |p| - poff then size - off else |p| - poff;
        PositionInRows(|sgl|, size, idx, off, woff);
        Put(idx, off, p[poff..poff + k]);
        assert p[..poff + k] == p[..poff] + p[poff..poff + k];
        poff := poff + k;
        if off + k == size {
          MulStep(idx, size);
          idx, off := idx + 1, 0;
        } else {
          off := off + k;
        }
      }
      assert p[..poff] == p;
    }

    /** Appends `p` to the stream; the only foreign buffers it may touch are free ones. */
    method Write(p: seq<Byte>) returns (n: nat)
      requires Valid()
      modifies this`sgl, this`woff, slab, sgl, slab.book.free
      ensures Valid() && n == |p|
      ensures Contents() == old(Contents()) + p
      ensures old(sgl) <= sgl
      ensures Kept(old(slab.book).holder, slab.book.holder)
    {
      hide Contents, NoDup, Cap, Shape, Slab2.Valid;
      var needtot := woff + |p|;
      if needtot > Cap() {
        ghost var _ := Grow(needtot);
      }
      Fill(p);
      n := |p|;
    }

    /** A stretch of one buffer is a stretch of the stream. */
    lemma ChunkOfContents(idx: nat, off: nat, k: nat)
      requires Shape() && idx < |sgl| && off + k <= slab.bufsize
      requires idx * slab.bufsize + off + k <= woff
      ensures idx * slab.bufsize >= 0
      ensures Contents()[idx * slab.bufsize + off..idx * slab.bufsize + off + k] == sgl[idx][off..off + k]
    {
      hide Flat;
      RowsEven(sgl, slab.bufsize);
      FlatSlice(Rows(sgl), slab.bufsize, idx, off, off + k);
      TakeSlice(Flat(Rows(sgl)), woff, idx * slab.bufsize + off, idx * slab.bufsize + off + k);
    }

    /**
     Copies into `b` what is available from `roffin` on, up to `blen` bytes. End of file is
     reported when fewer bytes than asked were there, and also when none was.
     */
    method ReadAtOffset(b: array<Byte>, blen: nat, roffin: nat) returns (n: nat, eof: bool, roff: nat)
      requires Shape() && blen <= b.Length && b !in sgl
      modifies b
      ensures n == if roffin >= woff then 0 else Min(blen, woff - roffin)
      ensures roff == roffin + n
      ensures n > 0 ==> b[..n] == Contents()[roffin..roff]
      ensures b[n..] == old(b[n..])
      ensures eof <==> n < blen || roffin >= woff
    {
      hide Contents, NoDup, Taken;
      n, eof, roff := 0, false, roffin;
      if roff >= woff {
        eof := true;
        return;
      }
      var size := slab.bufsize;
      var idx: nat, off: nat := roff / size, roff % size;
      PositionInRows(|sgl|, size, idx, off, roff);
      ghost var bytes, orig := Contents(), b[..];
      TakenNone(orig, bytes, roffin);
      n := CopyTurn(b, 0, blen, idx, off, roff, orig, bytes, roffin);
      roff := roff + n;
      while n < blen && idx < |sgl| - 1
        invariant idx < |sgl| && n <= blen
        invariant roff == roffin + n && roff <= woff
        invariant Taken(b[..], orig, n, bytes, roffin)
        invariant n == blen || roff == woff || roff == (idx + 1) * size
        decreases |sgl| - idx
      {
        idx := idx + 1;
        var n1 := CopyTurn(b, n, blen, idx, 0, roff, orig, bytes, roffin);
        roff := roff + n1;
        n := n + n1;
      }
      TakenMeans(b[..], orig, n, bytes, roffin);
      if n < blen {
        eof := true;
      }
    }

    /** One turn of the loop: from buffer `idx` at `off`, as much as fits, is wanted and was written. */
    method CopyTurn(b: array<Byte>, n: nat, blen: nat, idx: nat, off: nat, roff: nat,
                    ghost orig: seq<Byte>, ghost bytes: seq<Byte>, ghost from: nat) returns (k: nat)
      requires Shape() && b !in sgl && blen <= b.Length && bytes == Contents()
      requires idx < |sgl| && off < slab.bufsize && n <= blen && roff == from + n <= woff
      requires n == blen || roff == woff || roff == idx * slab.bufsize + off
      requires Taken(b[..], orig, n, bytes, from)
      modifies b
      ensures n + k <= blen && roff + k <= woff
      ensures n + k == blen || roff + k == woff || roff + k == (idx + 1) * slab.bufsize
      ensures Taken(b[..], orig, n + k, bytes, from)
    {
      hide Contents, NoDup;
      ghost var before := b[..];
      k := CopyChunk(b, n, Min(blen - n, woff - roff), idx, off, bytes);
      Copied(before, b[..], orig, n, bytes, from, k);
      MulStep(idx, slab.bufsize);
    }

    /** The copy of at most `len` bytes from buffer `idx` at `off` into `b` at `at`. */
    method CopyChunk(b: array<Byte>, at: nat, len: nat, idx: nat, off: nat, ghost bytes: seq<Byte>) returns (k: nat)
      requires Shape() && b !in sgl && at + len <= b.Length && bytes == Contents()
      requires idx < |sgl| && off <= slab.bufsize
      requires len > 0 ==> idx * slab.bufsize + off + len <= woff
      modifies b
      ensures k == Min(len, slab.bufsize - off)
      ensures k > 0 ==> 0 <= idx * slab.bufsize && idx * slab.bufsize + off + k <= |bytes| &&
                        b[..] == Splice(old(b[..]), at, bytes[idx * slab.bufsize + off..idx * slab.bufsize + off + k])
      ensures k == 0 ==> b[..] == old(b[..])
    {
      k := Min(len, slab.bufsize - off);
      if k > 0 {
        ChunkOfContents(idx, off, k);
      }
      hide Contents, NoDup;
      Store(b, at, sgl[idx][off..off + k]);
    }

    /**
     The stream as a queue: what Read has handed out is always a prefix of what Write was
     given. End of file comes exactly when fewer bytes than asked were available, except
     that asking for nothing at the very end reports it too.
     */
    method Read(b: array<Byte>) returns (n: nat, eof: bool)
      requires Queue() && b !in sgl
      modifies this`roff, this`taken, b
      ensures Shape() && Queue() && Contents() == old(Contents())
      ensures n == Min(b.Length, woff - old(roff)) && roff == old(roff) + n
      ensures taken == old(taken) + b[..n]
      ensures b[n..] == old(b[n..])
      ensures eof <==> woff - old(roff) < b.Length || (b.Length == 0 && old(roff) == woff)
    {
      ghost var bytes := Contents();
      var roff1;
      n, eof, roff1 := ReadAtOffset(b, b.Length, roff);
      assert Contents() == bytes;
      hide Contents, NoDup;
      taken := taken + b[..n];
      assert bytes[..roff1] == bytes[..roff] + bytes[roff..roff1];
      assert n == 0 ==> b[..n] == [];
      roff := roff1;
    }

    method ReadAll() returns (b: array<Byte>)
      requires Queue()
      ensures fresh(b) && b[..] == Contents()
    {
      b := new Byte[woff];
      ghost var bytes, orig := Contents(), b[..];
      var size := slab.bufsize;
      hide Contents, NoDup;
      var off: nat := 0;
      for i := 0 to |sgl|
        invariant off <= woff && Taken(b[..], orig, off, bytes, 0)
        invariant off == woff || off == i * size
      {
        var n := CopyTurn(b, off, b.Length, i, 0, off, orig, bytes, 0);
        off := off + n;
      }
      assert b[..off] == b[..] && bytes[0..off] == bytes;
    }

    method Reset()
      requires Queue()
      modifies this`woff, this`roff, this`taken
      ensures Queue() && Contents() == [] && taken == [] && sgl == old(sgl)
    {
      woff, roff, taken := 0, 0, [];
    }

    /** Gives every buffer back. The list is not usable afterwards: Shape() does not hold. */
    method Free()
      requires Valid()
      modifies this`sgl, this`woff, slab
      ensures slab.Valid() && sgl == [] && !Shape()
      ensures slab.book.holder == Without(old(slab.book).holder, old(sgl))
      ensures forall b :: b in slab.book.free ==> b in old(slab.book).free || b in old(sgl)
    {
      ghost var held := slab.book.holder;
      var bufs := sgl;
      assert Without(held, bufs[..0]) == held;
      hide Slab2.Valid, Contents, Without, NoDup, HeldIn;
      for i := 0 to |bufs|
        modifies slab
        invariant slab.Valid()
        invariant slab.book.holder == Without(held, bufs[..i])
        invariant forall b :: b in slab.book.free ==> b in old(slab.book).free || b in bufs
      {
        WithoutOneMore(held, bufs, i, this);
        slab.Free(bufs[i]);
      }
      assert bufs[..|bufs|] == bufs;
      sgl := [];
      woff := 0xDEADBEEF;
    }
  }

  /** A reader with its own position; several may share one list. */
  class Reader {
    const z: SGL
    var roff: nat

    constructor (z: SGL)
      ensures this.z == z && roff == 0
    {
      this.z, roff := z, 0;
    }

    method Read(b: array<Byte>) returns (n: nat, eof: bool)
      requires z.Shape() && b !in z.sgl
      modifies this`roff, b
      ensures roff == old(roff) + n
      ensures n == if old(roff) >= z.woff then 0 else Min(b.Length, z.woff - old(roff))
      ensures z.Contents() == old(z.Contents())
      ensures n > 0 ==> b[..n] == z.Contents()[old(roff)..roff]
      ensures eof <==> n < b.Length || old(roff) >= z.woff
    {
      var roff1;
      n, eof, roff1 := z.ReadAtOffset(b, b.Length, roff);
      roff := roff1;
    }
  }

  /** A reader confined to `slen` bytes from `soff` on. */
  class SliceReader {
    const z: SGL
    const soff: nat
    const slen: nat
    var roff: nat
    /** Everything handed out so far. */
    ghost var got: seq<Byte>

    ghost predicate Valid()
      reads this, z, z.sgl
    {
      && z.Shape() && soff + roff <= z.woff && roff <= slen
      && got == z.Contents()[soff..soff + roff]
    }

    constructor (z: SGL, soff: nat, slen: nat)
      ensures this.z == z && this.soff == soff && this.slen == slen && roff == 0 && got == []
    {
      this.z, this.soff, this.slen, roff, got := z, soff, slen, 0, [];
    }

    /**
     Shortens the request to what is left of the slice and of the stream. When the
     position lies beyond the end of the stream, as it does for a slice that starts
     there, the shortened length is negative and the program panics.
     */
    method Read(b: array<Byte>) returns (panics: bool, n: nat, eof: bool)
      requires z.Shape() && b !in z.sgl
      requires roff <= slen && (soff + roff <= z.woff ==> Valid())
      modifies this`roff, this`got, b
      ensures panics <==> soff + old(roff) > z.woff
      ensures panics ==> roff == old(roff)
      ensures !panics ==>
        && Valid() && z.Contents() == old(z.Contents())
        && n == Min(b.Length, Min(z.woff - soff - old(roff), slen - old(roff)))
        && got == old(got) + b[..n]
        && (eof <==> n < b.Length)
        && (eof ==> got == z.Contents()[soff..Min(z.woff, soff + slen)])
    {
      hide SGL.Contents, NoDup;
      n, eof, panics := 0, false, false;
      var offin := roff + soff;
      var rem := Min(z.woff - offin, slen - roff);
      var blen: int := b.Length;
      if rem < b.Length {
        if rem < 0 {
          panics := true;
          return;
        }
        blen := rem;
        eof := true;
      }
      ghost var bytes := z.Contents();
      var offout, short;
      n, short, offout := z.ReadAtOffset(b, blen, offin);
      assert z.Contents() == bytes;
      got := got + b[..n];
      assert bytes[soff..offout] == bytes[soff..offin] + bytes[offin..offout];
      assert n == 0 ==> b[..n] == [];
      roff := offout - soff;
    }
  }

  /** The first `n` bytes of `b` come from `bytes`, the others are as they were. */
  ghost predicate Taken(b: seq<Byte>, orig: seq<Byte>, n: nat, bytes: seq<Byte>, from: nat) {
    && n <= |b| == |orig| && from + n <= |bytes|
    && b[..n] == bytes[from..from + n]
    && b[n..] == orig[n..]
  }

  lemma TakenNone(orig: seq<Byte>, bytes: seq<Byte>, from: nat)
    requires from <= |bytes|
    ensures Taken(orig, orig, 0, bytes, from)
  {}

  lemma TakenMeans(b: seq<Byte>, orig: seq<Byte>, n: nat, bytes: seq<Byte>, from: nat)
    requires Taken(b, orig, n, bytes, from)
    ensures n <= |b| == |orig| && from + n <= |bytes| && b[..n] == bytes[from..from + n] && b[n..] == orig[n..]
  {}

  /** A chunk of `bytes` copied behind what was already copied. */
  lemma Copied(before: seq<Byte>, after: seq<Byte>, orig: seq<Byte>, n: nat, bytes: seq<Byte>, from: nat, k: nat)
    requires Taken(before, orig, n, bytes, from)
    requires n + k <= |before| && from + n + k <= |bytes|
    requires k > 0 ==> after == Splice(before, n, bytes[from + n..from + n + k])
    requires k == 0 ==> after == before
    ensures Taken(after, orig, n + k, bytes, from)
  {
    if k > 0 {
      assert bytes[from..from + n + k] == bytes[from..from + n] + bytes[from + n..from + n + k];
      assert orig[n + k..] == orig[n..][k..];
    }
  }

  lemma TakeSlice(s: seq<Byte>, w: nat, a: nat, b: nat)
    requires a <= b <= w <= |s|
    ensures s[..w][a..b] == s[a..b]
  {}

  method Store(buf: Buffer, off: nat, chunk: seq<Byte>)
    requires off + |chunk| <= buf.Length
    modifies buf
    ensures buf[..] == Splice(old(buf[..]), off, chunk)
  {
    forall j | 0 <= j < |chunk| {
      buf[off + j] := chunk[j];
    }
  }

  lemma MulStep(n: nat, size: nat)
    ensures (n + 1) * size == n * size + size
  {}
}
