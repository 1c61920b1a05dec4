/**
 The object header on the wire, transport/send.go (ins* helpers, insHeader) and
 transport/recv.go (ext* helpers, ExtHeader): lengths and numbers as big-endian
 64-bit words, the header preceded by its length and by a checksum of that length.
 Strings are bytes.
 */
module Wire {
  import opened Wrappers
  import opened ScatterGather
  import Xoshiro256

  const MAX_HEADER_SIZE: nat := 1024
  const LAST_MARKER: int := 0x7FFF_FFFF_FFFF_FFFF

  datatype Header = Header(bucket: seq<Byte>, objname: seq<Byte>, opaqueData: seq<Byte>, dsize: I64) {
    predicate IsLast() {
      dsize == LAST_MARKER
    }

    /** The header goes into the header buffer as a whole. */
    predicate Fits() {
      56 + |bucket| + |objname| + |opaqueData| <= MAX_HEADER_SIZE
    }
  }

  // ---- big-endian words

  function BigEndian(x: nat, n: nat): seq<Byte> {
    if n == 0 then [] else BigEndian(x / 256, n - 1) + [x % 256]
  }

  function Value(s: seq<Byte>): nat {
    if s == [] then 0 else 256 * Value(s[..|s| - 1]) + s[|s| - 1]
  }

  function Pow256(n: nat): nat {
    if n == 0 then 1 else 256 * Pow256(n - 1)
  }

  lemma {:induction false} BigEndianRoundTrip(x: nat, n: nat)
    requires x < Pow256(n)
    ensures |BigEndian(x, n)| == n && Value(BigEndian(x, n)) == x
  {
    if n > 0 {
      assert x / 256 < Pow256(n - 1);
      BigEndianRoundTrip(x / 256, n - 1);
      var s := BigEndian(x, n);
      assert s[..|s| - 1] == BigEndian(x / 256, n - 1);
    }
  }

  lemma {:induction false} ValueBound(s: seq<Byte>)
    ensures Value(s) < Pow256(|s|)
  {
    if s != [] {
      ValueBound(s[..|s| - 1]);
    }
  }

  lemma Pow256Of8()
    ensures Pow256(8) == TWO_TO_THE_64
  {
    assert Pow256(4) == 0x1_0000_0000;
    assert Pow256(6) == 0x1_0000_0000_0000;
  }

  function Put64(x: U64): (s: seq<Byte>)
    ensures |s| == 8
  {
    Pow256Of8();
    BigEndianRoundTrip(x, 8);
    BigEndian(x, 8)
  }

  function Get64(s: seq<Byte>): U64
    requires |s| == 8
  {
    Pow256Of8();
    ValueBound(s);
    Value(s)
  }

  lemma WordOnWire(x: U64)
    ensures Get64(Put64(x)) == x
  {
    Pow256Of8();
    BigEndianRoundTrip(x, 8);
  }

  // ---- layout of a header

  function HashWord(x: U64): U64 {
    ToWord(Xoshiro256.Hash(ToBits(x)))
  }

  lemma HashWordInjective(x: U64, y: U64)
    ensures HashWord(x) == HashWord(y) <==> x == y
  {
    hide ToWord, ToBits, Xoshiro256.Hash;
    WordInjective(Xoshiro256.Hash(ToBits(x)), Xoshiro256.Hash(ToBits(y)));
    Xoshiro256.HashInjective(ToBits(x), ToBits(y));
    BitsInjective(x, y);
  }

  /** A string with its length before it. */
  function Str(s: seq<Byte>): (r: seq<Byte>)
    requires |s| <= MAX_HEADER_SIZE
    ensures |r| == 8 + |s|
  {
    Put64(|s|) + s
  }

  /** What follows the length and its checksum. */
  function Body(h: Header, sessid: I64): (r: seq<Byte>)
    requires h.Fits()
    ensures |r| == 40 + |h.bucket| + |h.objname| + |h.opaqueData|
  {
    Str(h.bucket) + (Str(h.objname) + (Str(h.opaqueData) + (Put64(Unsigned(sessid)) + Put64(Unsigned(h.dsize)))))
  }

  function Prefix(hlen: U64): (r: seq<Byte>)
    ensures |r| == 16
  {
    Put64(hlen) + Put64(HashWord(hlen))
  }

  function Encode(h: Header, sessid: I64): (r: seq<Byte>)
    requires h.Fits()
    ensures |r| == 56 + |h.bucket| + |h.objname| + |h.opaqueData| <= MAX_HEADER_SIZE
  {
    var body := Body(h, sessid);
    Prefix(|body|) + body
  }

  /** The first two words: the length of what follows them, and the hash of that length. */
  lemma ChecksumOnWire(h: Header, sessid: I64)
    requires h.Fits()
    ensures
      var s := Encode(h, sessid);
      && Get64(s[0..8]) == |s| - 16
      && ToBits(Get64(s[8..16])) == Xoshiro256.Hash(ToBits(|s| - 16))
  {
    hide ToWord, ToBits, Xoshiro256.Hash, Put64, Get64, Body;
    var s := Encode(h, sessid);
    var hlen := |Body(h, sessid)|;
    assert s[0..8] == Put64(hlen) && s[8..16] == Put64(HashWord(hlen));
    WordOnWire(hlen);
    WordOnWire(HashWord(hlen));
    BitsRoundTrip(Xoshiro256.Hash(ToBits(hlen)));
  }

  /** Where everything stands: bucket, object and opaque data behind their lengths, then session and size. */
  lemma HeaderLayout(h: Header, sessid: I64)
    requires h.Fits()
    ensures
      var s, b, o, q := Encode(h, sessid), |h.bucket|, |h.objname|, |h.opaqueData|;
      && s[16..24] == Put64(b) && s[24..24 + b] == h.bucket
      && s[24 + b..32 + b] == Put64(o) && s[32 + b..32 + b + o] == h.objname
      && s[32 + b + o..40 + b + o] == Put64(q) && s[40 + b + o..40 + b + o + q] == h.opaqueData
      && s[40 + b + o + q..48 + b + o + q] == Put64(Unsigned(sessid))
      && s[48 + b + o + q..] == Put64(Unsigned(h.dsize))
  {
    hide Put64, Unsigned, Str, Encode, Body;
    var s, b, o, q := Encode(h, sessid), |h.bucket|, |h.objname|, |h.opaqueData|;
    FieldsLayout(h, sessid);
    StrAt(s, 16, h.bucket);
    StrAt(s, 24 + b, h.objname);
    StrAt(s, 32 + b + o, h.opaqueData);
    Follows(s, 40 + b + o + q, Put64(Unsigned(sessid)), Put64(Unsigned(h.dsize)));
  }

  lemma FieldsLayout(h: Header, sessid: I64)
    requires h.Fits()
    ensures
      var s, b, o, q := Encode(h, sessid), |h.bucket|, |h.objname|, |h.opaqueData|;
      && s[16..24 + b] == Str(h.bucket) && s[24 + b..32 + b + o] == Str(h.objname)
      && s[32 + b + o..40 + b + o + q] == Str(h.opaqueData)
      && s[40 + b + o + q..] == Put64(Unsigned(sessid)) + Put64(Unsigned(h.dsize))
  {
    hide Put64, Prefix, Unsigned, Str;
    var s := Encode(h, sessid);
    var x, y := Str(h.opaqueData), Put64(Unsigned(sessid)) + Put64(Unsigned(h.dsize));
    Follows(s, 0, Prefix(|Body(h, sessid)|), Body(h, sessid));
    Follows(s, 16, Str(h.bucket), Str(h.objname) + (x + y));
    Follows(s, 24 + |h.bucket|, Str(h.objname), x + y);
    Follows(s, 32 + |h.bucket| + |h.objname|, x, y);
  }

  lemma Follows(s: seq<Byte>, i: nat, x: seq<Byte>, y: seq<Byte>)
    requires i <= |s| && s[i..] == x + y
    ensures i + |x| <= |s| && s[i..i + |x|] == x && s[i + |x|..] == y
  {
    assert s[i..i + |x|] == s[i..][..|x|] && s[i + |x|..] == s[i..][|x|..];
  }

  lemma StrAt(s: seq<Byte>, i: nat, x: seq<Byte>)
    requires |x| <= MAX_HEADER_SIZE && i + 8 + |x| <= |s| && s[i..i + 8 + |x|] == Str(x)
    ensures s[i..i + 8] == Put64(|x|) && s[i + 8..i + 8 + |x|] == x
  {
    hide Put64;
    assert s[i..i + 8] == s[i..i + 8 + |x|][..8] && s[i + 8..i + 8 + |x|] == s[i..i + 8 + |x|][8..];
  }

  // ---- writing it into the header buffer

  lemma SpliceJoin(s: seq<Byte>, at: nat, a: seq<Byte>, b: seq<Byte>)
    requires at + |a| + |b| <= |s|
    ensures Splice(Splice(s, at, a), at + |a|, b) == Splice(s, at, a + b)
  {}

  method PutBytes(off: nat, to: array<Byte>, s: seq<Byte>)
    requires off + |s| <= to.Length
    modifies to
    ensures to[..] == Splice(old(to[..]), off, s)
  {
    forall i | 0 <= i < |s| {
      to[off + i] := s[i];
    }
  }

  method InsWord(off: nat, to: array<Byte>, x: U64) returns (off': nat)
    requires off + 8 <= to.Length
    modifies to
    ensures off' == off + 8
    ensures to[..] == Splice(old(to[..]), off, Put64(x))
  {
    hide Put64;
    PutBytes(off, to, Put64(x));
    off' := off + 8;
  }

  method InsString(off: nat, to: array<Byte>, s: seq<Byte>) returns (off': nat)
    requires off + 8 + |s| <= to.Length == MAX_HEADER_SIZE
    modifies to
    ensures off' == off + 8 + |s|
    ensures to[..] == Splice(old(to[..]), off, Str(s))
  {
    hide Put64;
    SpliceJoin(to[..], off, Put64(|s|), s);
    PutBytes(off, to, Put64(|s|));
    PutBytes(off + 8, to, s);
    off' := off + 8 + |s|;
  }

  lemma SpliceJoin5(s: seq<Byte>, at: nat, a: seq<Byte>, b: seq<Byte>, c: seq<Byte>, d: seq<Byte>, e: seq<Byte>)
    requires at + |a| + |b| + |c| + |d| + |e| <= |s|
    ensures
      var s1 := Splice(s, at, a);
      var s2 := Splice(s1, at + |a|, b);
      var s3 := Splice(s2, at + |a| + |b|, c);
      var s4 := Splice(s3, at + |a| + |b| + |c|, d);
      Splice(s4, at + |a| + |b| + |c| + |d|, e) == Splice(s, at, a + (b + (c + (d + e))))
  {
    hide Splice;
    SpliceLength();
    var s1 := Splice(s, at, a);
    var s2 := Splice(s1, at + |a|, b);
    var s3 := Splice(s2, at + |a| + |b|, c);
    SpliceJoin(s3, at + |a| + |b| + |c|, d, e);
    SpliceJoin(s2, at + |a| + |b|, c, d + e);
    SpliceJoin(s1, at + |a|, b, c + (d + e));
    SpliceJoin(s, at, a, b + (c + (d + e)));
  }

  lemma SpliceLength()
    ensures forall s: seq<Byte>, at: nat, a: seq<Byte> | at + |a| <= |s| :: |Splice(s, at, a)| == |s|
  {}

  /** Prefix and body, written separately, stand next to each other. */
  lemma SplicedEncoding(s: seq<Byte>, body: seq<Byte>, prefix: seq<Byte>)
    requires |prefix| == 16 && 16 + |body| <= |s|
    ensures |Splice(Splice(s, 16, body), 0, prefix)| == |s|
    ensures Splice(Splice(s, 16, body), 0, prefix)[..16 + |body|] == prefix + body
  {}

  /** The header buffer receives exactly the encoding. */
  method InsHeader(to: array<Byte>, h: Header, sessid: I64) returns (l: nat)
    requires to.Length == MAX_HEADER_SIZE && h.Fits()
    modifies to
    ensures l == |Encode(h, sessid)| && to[..l] == Encode(h, sessid)
  {
    hide Put64, Str, Splice, HashWord, Unsigned;
    SpliceLength();
    ghost var was := to[..];
    ghost var a, b, c := Str(h.bucket), Str(h.objname), Str(h.opaqueData);
    ghost var d, e := Put64(Unsigned(sessid)), Put64(Unsigned(h.dsize));
    l := 16;
    l := InsString(l, to, h.bucket);
    l := InsString(l, to, h.objname);
    l := InsString(l, to, h.opaqueData);
    l := InsWord(l, to, Unsigned(sessid));
    l := InsWord(l, to, Unsigned(h.dsize));
    SpliceJoin5(was, 16, a, b, c, d, e);
    assert to[..] == Splice(was, 16, Body(h, sessid));
    var hlen := l - 16;
    var _ := InsWord(0, to, hlen);
    var _ := InsWord(8, to, HashWord(hlen));
    SpliceJoin(Splice(was, 16, Body(h, sessid)), 0, Put64(hlen), Put64(HashWord(hlen)));
    SplicedEncoding(was, Body(h, sessid), Prefix(hlen));
    assert to[..l] == to[..][..l];
  }

  // ---- reading it back; None stands for an index out of range, at which the program panics

  function ExtWord(off: nat, from: seq<Byte>): Option<(nat, U64)> {
    if off + 8 > |from| then None else Some((off + 8, Get64(from[off..off + 8])))
  }

  function ExtString(off: nat, from: seq<Byte>): Option<(nat, seq<Byte>)> {
    match ExtWord(off, from)
    case None => None
    case Some((at, u)) =>
      var l := Signed(u);
      if l < 0 || at + l > |from| then None else Some((at + l, from[at..at + l]))
  }

  function ExtHeader(from: seq<Byte>): Option<(Header, I64)> {
    match ExtString(0, from)
    case None => None
    case Some((o1, bucket)) =>
      match ExtString(o1, from)
      case None => None
      case Some((o2, objname)) =>
        match ExtString(o2, from)
        case None => None
        case Some((o3, opaqueData)) =>
          match ExtWord(o3, from)
          case None => None
          case Some((o4, sessid)) =>
            match ExtWord(o4, from)
            case None => None
            case Some((_, dsize)) =>
              Some((Header(bucket, objname, opaqueData, Signed(dsize)), Signed(sessid)))
  }

  ghost predicate At(from: seq<Byte>, off: nat, chunk: seq<Byte>) {
    off + |chunk| <= |from| && from[off..off + |chunk|] == chunk
  }

  lemma AtSplit(from: seq<Byte>, off: nat, a: seq<Byte>, b: seq<Byte>)
    requires At(from, off, a + b)
    ensures At(from, off, a) && At(from, off + |a|, b)
  {
    var s := from[off..off + |a + b|];
    assert s[..|a|] == a && s[|a|..] == b;
  }

  lemma WordFound(from: seq<Byte>, off: nat, x: U64)
    requires At(from, off, Put64(x))
    ensures ExtWord(off, from) == Some((off + 8, x))
  {
    hide Put64, Get64;
    WordOnWire(x);
  }

  lemma StringFound(from: seq<Byte>, off: nat, s: seq<Byte>)
    requires |s| <= MAX_HEADER_SIZE && At(from, off, Str(s))
    ensures ExtString(off, from) == Some((off + 8 + |s|, s))
  {
    hide Put64, Get64;
    AtSplit(from, off, Put64(|s|), s);
    WordFound(from, off, |s|);
  }

  lemma SignRoundTrip(i: I64)
    ensures Signed(Unsigned(i)) == i
  {}

  /** Whatever follows the header in the buffer, it is read back as it was written. */
  lemma HeaderFound(from: seq<Byte>, h: Header, sessid: I64)
    requires h.Fits() && At(from, 0, Body(h, sessid))
    ensures ExtHeader(from) == Some((h, sessid))
  {
    hide Put64, Str, At, ExtString, ExtWord, Unsigned, Signed;
    var a, b, c := Str(h.bucket), Str(h.objname), Str(h.opaqueData);
    var d, e := Put64(Unsigned(sessid)), Put64(Unsigned(h.dsize));
    AtSplit(from, 0, a, b + (c + (d + e)));
    AtSplit(from, |a|, b, c + (d + e));
    AtSplit(from, |a| + |b|, c, d + e);
    AtSplit(from, |a| + |b| + |c|, d, e);
    StringFound(from, 0, h.bucket);
    StringFound(from, |a|, h.objname);
    StringFound(from, |a| + |b|, h.opaqueData);
    WordFound(from, |a| + |b| + |c|, Unsigned(sessid));
    WordFound(from, |a| + |b| + |c| + |d|, Unsigned(h.dsize));
    SignRoundTrip(sessid);
    SignRoundTrip(h.dsize);
  }
}
