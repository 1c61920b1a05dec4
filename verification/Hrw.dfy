/**
 Rendezvous (highest random weight) selection, cluster/hrw.go. The three loops of
 the source walk a map in an unspecified order and keep the strictly heaviest entry
 seen so far, starting from weight zero. `Top` says, without any order, which entry
 that is; the loops are proved to find it whatever order they take.

 The digests of node identities, mountpaths and object names come from an external
 hash and are parameters here.
 */
module Hrw {
  import opened Wrappers
  import opened ClusterMap
  import Xoshiro256


  // ---- which entry of a weighted map wins

  ghost predicate IsTop(w: map<Id, nat>, id: Id) {
    && id in w
    && w[id] > 0
    && forall o :: o in w && o != id ==> w[o] < w[id]
  }

  /** One of the heaviest; the loops settle for any of them. */
  ghost predicate IsHeaviest(w: map<Id, nat>, id: Id) {
    && id in w
    && w[id] > 0
    && forall o :: o in w ==> w[o] <= w[id]
  }

  ghost function Top(w: map<Id, nat>): (r: Option<Id>)
    ensures r.Some? ==> IsTop(w, r.value)
    ensures r.None? ==> !exists id :: IsTop(w, id)
  {
    if exists id :: IsTop(w, id) then
      var id :| IsTop(w, id); Some(id)
    else None
  }

  ghost predicate NoTies(w: map<Id, nat>) {
    forall a, b :: a in w && b in w && a != b ==> w[a] != w[b]
  }

  ghost predicate Positive(w: map<Id, nat>) {
    exists id :: id in w && w[id] > 0
  }

  lemma TopUnique(w: map<Id, nat>, id: Id)
    requires IsTop(w, id)
    ensures Top(w) == Some(id)
  {}

  lemma HeaviestIsTop(w: map<Id, nat>, id: Id)
    requires NoTies(w)
    ensures IsHeaviest(w, id) <==> Top(w) == Some(id)
  {
    if IsHeaviest(w, id) {
      assert IsTop(w, id);
      TopUnique(w, id);
    }
  }

  /** Without ties there is a winner as soon as one weight is not zero. */
  lemma {:induction false} TopExists(w: map<Id, nat>)
    requires NoTies(w) && Positive(w)
    ensures Top(w).Some?
    decreases |w|
  {
    var id :| id in w && w[id] > 0;
    var rest := w - {id};
    assert forall o :: o in w && o != id ==> o in rest && rest[o] == w[o];
    assert |rest| == |w| - 1 by {
      assert rest.Keys == w.Keys - {id};
    }
    if Positive(rest) {
      TopExists(rest);
      var t := Top(rest).value;
      var best := if w[t] < w[id] then id else t;
      assert IsTop(w, best);
    } else {
      assert IsTop(w, id);
    }
  }

  /**
   Adding one entry to a tie-free map sends nothing from one old entry to another
   old entry: the winner stays, or it becomes the entry that was added.
   */
  lemma TopAfterAdd(w: map<Id, nat>, id: Id, weight: nat)
    requires id !in w
    requires NoTies(w[id := weight])
    ensures Top(w[id := weight]) in {Top(w), Some(id)}
    ensures Top(w[id := weight]) == Some(id) <==>
            weight > 0 && forall o :: o in w ==> w[o] < weight
  {
    var w' := w[id := weight];
    if weight > 0 && forall o :: o in w ==> w[o] < weight {
      TopUnique(w', id);
    } else if Positive(w) {
      assert forall o :: o in w ==> w'[o] == w[o];
      assert NoTies(w);
      TopExists(w);
      var t := Top(w).value;
      assert w'[t] == w[t];
      assert IsTop(w', t);
      TopUnique(w', t);
    } else {
      assert !exists o :: IsTop(w', o) by {
        if o :| IsTop(w', o) {
          assert o != id ==> o in w && w[o] == w'[o];
        }
      }
    }
  }

  /** The running maximum of the source's loops, after the entries in `seen`. */
  ghost predicate Leading(w: map<Id, nat>, seen: set<Id>, max: nat, best: Option<Id>) {
    && seen <= w.Keys
    && (forall o :: o in seen ==> w[o] <= max)
    && (best.None? ==> max == 0)
    && (best.Some? ==> best.value in seen && w[best.value] == max && max > 0)
  }

  lemma LeadingAtEnd(w: map<Id, nat>, max: nat, best: Option<Id>)
    requires Leading(w, w.Keys, max, best)
    ensures best.None? <==> !Positive(w)
    ensures best.Some? ==> IsHeaviest(w, best.value)
    ensures NoTies(w) ==> best == Top(w)
  {
    if best.Some? && NoTies(w) {
      assert IsTop(w, best.value);
      TopUnique(w, best.value);
    }
  }

  // ---- weights

  function Mix(x: bv64, o: bv64): bv64 {
    Xoshiro256.Hash(x ^ o)
  }

  function Weight(node: U64, obj: U64): U64 {
    ToWord(Mix(ToBits(node), ToBits(obj)))
  }

  /** The weight of a node for an object: the hash of the two digests taken together. */
  lemma WeightIsHash(node: U64, obj: U64)
    ensures ToBits(Weight(node, obj)) == Xoshiro256.Hash(ToBits(node) ^ ToBits(obj))
  {
    hide ToWord, ToBits, Xoshiro256.Hash;
    BitsRoundTrip(Mix(ToBits(node), ToBits(obj)));
  }

  lemma MixInjective(x: bv64, y: bv64, o: bv64)
    ensures Mix(x, o) == Mix(y, o) ==> x == y
  {
    hide Xoshiro256.Hash;
    Xoshiro256.HashInjective(x ^ o, y ^ o);
    XorInjective(x, y, o);
  }

  lemma XorInjective(a: bv64, b: bv64, c: bv64)
    ensures a ^ c == b ^ c <==> a == b
  {}

  lemma WeightInjective(a: U64, b: U64, obj: U64)
    ensures Weight(a, obj) == Weight(b, obj) <==> a == b
  {
    hide Mix, ToWord, ToBits;
    var x, y, o := ToBits(a), ToBits(b), ToBits(obj);
    WordInjective(Mix(x, o), Mix(y, o));
    MixInjective(x, y, o);
    BitsInjective(a, b);
  }

  ghost predicate DistinctDigests(m: map<Id, Snode>) {
    forall a, b :: a in m && b in m && a != b ==> m[a].digest != m[b].digest
  }

  ghost function Weights(m: map<Id, Snode>, obj: U64): map<Id, nat> {
    map id | id in m :: Weight(m[id].digest, obj)
  }

  /** Distinct node digests never tie, for any object. */
  lemma DistinctDigestsNoTies(m: map<Id, Snode>, obj: U64)
    requires DistinctDigests(m)
    ensures NoTies(Weights(m, obj))
  {
    hide Weight;
    var w := Weights(m, obj);
    forall a, b | a in w && b in w && a != b ensures w[a] != w[b] {
      WeightInjective(m[a].digest, m[b].digest, obj);
    }
  }

  /** The loop shared by HrwTarget and hrwMpath: keep what is strictly heavier. */
  method Heaviest(w: map<Id, nat>) returns (best: Option<Id>)
    ensures best.None? <==> !Positive(w)
    ensures best.Some? ==> IsHeaviest(w, best.value)
    ensures NoTies(w) ==> best == Top(w)
  {
    best := None;
    var max := 0;
    var todo := w.Keys;
    while todo != {}
      invariant todo <= w.Keys
      invariant Leading(w, w.Keys - todo, max, best)
      decreases |todo|
    {
      var id :| id in todo;
      todo := todo - {id};
      if w[id] > max {
        max, best := w[id], Some(id);
      }
    }
    assert w.Keys - todo == w.Keys;
    LeadingAtEnd(w, max, best);
  }

  // ---- targets

  ghost function TargetOf(tmap: map<Id, Snode>, obj: U64): Option<Id> {
    Top(Weights(tmap, obj))
  }

  method HrwTarget(tmap: map<Id, Snode>, obj: U64) returns (si: Option<Id>, err: bool)
    ensures err <==> |tmap| == 0
    ensures err ==> si.None?
    ensures si.Some? ==> si.value in tmap
    ensures DistinctDigests(tmap) ==> si == TargetOf(tmap, obj)
    ensures DistinctDigests(tmap) && |tmap| >= 2 ==> si.Some?
  {
    si, err := None, false;
    if |tmap| == 0 {
      err := true;
      assert Weights(tmap, obj) == map[];
      return;
    }
    hide Weight;
    var w := map id | id in tmap :: Weight(tmap[id].digest, obj);
    si := Heaviest(w);
    if DistinctDigests(tmap) {
      DistinctDigestsNoTies(tmap, obj);
      if |tmap| >= 2 {
        assert w.Keys == tmap.Keys;
        TwoArePositive(w);
      }
    }
  }

  lemma TwoArePositive(w: map<Id, nat>)
    requires NoTies(w) && |w.Keys| >= 2
    ensures Positive(w)
  {
    var a :| a in w;
    assert |w.Keys - {a}| == |w.Keys| - 1;
    var b :| b in w.Keys - {a};
    assert w[a] != w[b];
  }

  lemma TopMissed(w: map<Id, nat>)
    requires NoTies(w) && w.Keys != {}
    ensures Top(w).None? <==> exists id :: w.Keys == {id} && w[id] == 0
  {
    if Positive(w) {
      TopExists(w);
    } else {
      var id :| id in w;
      assert |w.Keys| >= 2 ==> Positive(w) by {
        if |w.Keys| >= 2 { TwoArePositive(w); }
      }
      assert w.Keys == {id} by {
        assert |w.Keys - {id}| == 0;
      }
    }
  }

  /**
   The selection comes back empty-handed, without an error, in one case only: a
   single target whose digest, mixed with the object's, hashes to zero.
   */
  lemma TargetMissed(tmap: map<Id, Snode>, obj: U64)
    requires DistinctDigests(tmap) && |tmap| > 0
    ensures TargetOf(tmap, obj).None? <==>
            exists id :: tmap.Keys == {id} && tmap[id].digest == ZeroDigest(obj)
  {
    hide Weight, ZeroDigest;
    DistinctDigestsNoTies(tmap, obj);
    forall id | id in tmap
      ensures Weights(tmap, obj)[id] == 0 <==> tmap[id].digest == ZeroDigest(obj)
    {
      ZeroWeight(tmap[id].digest, obj);
    }
    WeightsMissed(tmap, Weights(tmap, obj), ZeroDigest(obj));
  }

  lemma WeightsMissed(tmap: map<Id, Snode>, w: map<Id, nat>, bad: U64)
    requires NoTies(w) && w.Keys == tmap.Keys != {}
    requires forall id :: id in tmap ==> (w[id] == 0 <==> tmap[id].digest == bad)
    ensures Top(w).None? <==> exists id :: tmap.Keys == {id} && tmap[id].digest == bad
  {
    TopMissed(w);
  }

  /** The one digest that makes an object weigh nothing. */
  function ZeroDigest(obj: U64): U64 {
    ToWord(ZeroBits(ToBits(obj)))
  }

  function ZeroBits(o: bv64): bv64 {
    Xoshiro256.Unhash(0) ^ o
  }

  lemma ZeroBitsMixToZero(o: bv64)
    ensures Mix(ZeroBits(o), o) == 0
  {
    hide Xoshiro256.Hash, Xoshiro256.Unhash;
    Xoshiro256.HashReached(0);
    XorUndone(Xoshiro256.Unhash(0), o);
  }

  lemma XorUndone(a: bv64, b: bv64)
    ensures (a ^ b) ^ b == a
  {}

  lemma ZeroWeight(node: U64, obj: U64)
    ensures Weight(node, obj) == 0 <==> node == ZeroDigest(obj)
  {
    assert ToWord(0) == 0;
    hide Mix, ToWord, ToBits, ZeroBits;
    BitsRoundTrip(ZeroBits(ToBits(obj)));
    ZeroBitsMixToZero(ToBits(obj));
    WeightInjective(node, ZeroDigest(obj), obj);
  }

  /**
   One target joins: each object keeps its target or moves to the one that joined.
   Read from right to left, one target leaves: only its own objects move.
   */
  lemma JoinRemapsOnlyToJoiner(tmap: map<Id, Snode>, si: Snode, obj: U64)
    requires si.id !in tmap && DistinctDigests(tmap[si.id := si])
    ensures TargetOf(tmap[si.id := si], obj) in {TargetOf(tmap, obj), Some(si.id)}
  {
    hide Weight;
    var tmap' := tmap[si.id := si];
    var w, w' := Weights(tmap, obj), Weights(tmap', obj);
    assert w' == w[si.id := w'[si.id]];
    DistinctDigestsNoTies(tmap', obj);
    TopAfterAdd(w, si.id, w'[si.id]);
  }

  lemma LeaveRemapsOnlyFromLeaver(tmap: map<Id, Snode>, id: Id, obj: U64)
    requires DistinctDigests(tmap) && id in tmap
    requires forall i :: i in tmap ==> tmap[i].id == i
    ensures TargetOf(tmap, obj) != Some(id) ==> TargetOf(tmap - {id}, obj) == TargetOf(tmap, obj)
  {
    var rest := tmap - {id};
    assert rest[id := tmap[id]] == tmap;
    JoinRemapsOnlyToJoiner(rest, tmap[id], obj);
  }

  // ---- mountpaths: the same loop over path digests

  ghost predicate DistinctPaths(paths: map<string, U64>) {
    forall a, b :: a in paths && b in paths && a != b ==> paths[a] != paths[b]
  }

  ghost function MpathWeights(paths: map<string, U64>, obj: U64): map<string, nat> {
    map p | p in paths :: Weight(paths[p], obj)
  }

  lemma DistinctPathsNoTies(paths: map<string, U64>, obj: U64)
    requires DistinctPaths(paths)
    ensures NoTies(MpathWeights(paths, obj))
  {
    hide Weight;
    var w := MpathWeights(paths, obj);
    forall a, b | a in w && b in w && a != b ensures w[a] != w[b] {
      WeightInjective(paths[a], paths[b], obj);
    }
  }

  method HrwMpath(paths: map<string, U64>, obj: U64) returns (mpath: Option<string>, err: bool)
    ensures err <==> |paths| == 0
    ensures mpath.None? <==> !Positive(MpathWeights(paths, obj))
    ensures mpath.Some? ==> IsHeaviest(MpathWeights(paths, obj), mpath.value)
    ensures DistinctPaths(paths) ==> mpath == Top(MpathWeights(paths, obj))
  {
    mpath, err := None, false;
    if |paths| == 0 {
      err := true;
      assert MpathWeights(paths, obj) == map[];
      return;
    }
    hide Weight;
    var w := map p | p in paths :: Weight(paths[p], obj);
    mpath := Heaviest(w);
    if DistinctPaths(paths) {
      DistinctPathsNoTies(paths, obj);
    }
  }

  /** As for targets: no mountpath and no error, exactly when the only one has the digest that weighs nothing. */
  lemma MpathMissed(paths: map<string, U64>, obj: U64)
    requires DistinctPaths(paths) && |paths| > 0
    ensures Top(MpathWeights(paths, obj)).None? <==> exists p :: paths.Keys == {p} && paths[p] == ZeroDigest(obj)
  {
    hide Weight, ZeroDigest;
    var w := MpathWeights(paths, obj);
    DistinctPathsNoTies(paths, obj);
    forall p | p in paths
      ensures w[p] == 0 <==> paths[p] == ZeroDigest(obj)
    {
      ZeroWeight(paths[p], obj);
    }
    assert w.Keys == paths.Keys;
    TopMissed(w);
  }

  // ---- proxies

  /** Proxies that may be elected: not the one to skip, not marked non-electable. */
  ghost function Electable(pmap: map<Id, Snode>, nonElects: set<Id>, skip: Id): map<Id, nat> {
    map id | id in pmap && id != skip && id !in nonElects :: pmap[id].digest
  }

  ghost function NextPrimary(pmap: map<Id, Snode>, nonElects: set<Id>, skip: Id): Option<Id> {
    Top(Electable(pmap, nonElects, skip))
  }

  lemma DistinctProxiesNoTies(pmap: map<Id, Snode>, nonElects: set<Id>, skip: Id)
    requires DistinctDigests(pmap)
    ensures NoTies(Electable(pmap, nonElects, skip))
  {
  }

  method HrwProxy(pmap: map<Id, Snode>, nonElects: set<Id>, skip: Id) returns (pi: Option<Id>, err: bool)
    ensures err <==> pi.None?
    ensures pi.None? <==> !Positive(Electable(pmap, nonElects, skip))
    ensures pi.Some? ==> IsHeaviest(Electable(pmap, nonElects, skip), pi.value)
    ensures DistinctDigests(pmap) ==> pi == NextPrimary(pmap, nonElects, skip)
  {
    pi, err := None, false;
    ghost var w := Electable(pmap, nonElects, skip);
    if |pmap| == 0 {
      err := true;
      assert w == map[];
      return;
    }
    var max := 0;
    var todo := pmap.Keys;
    while todo != {}
      invariant todo <= pmap.Keys
      invariant Leading(w, w.Keys - todo, max, pi)
      decreases |todo|
    {
      var id :| id in todo;
      todo := todo - {id};
      if id == skip || id in nonElects {
        continue;
      }
      if pmap[id].digest > max {
        max, pi := pmap[id].digest, Some(id);
      }
    }
    assert w.Keys - todo == w.Keys;
    LeadingAtEnd(w, max, pi);
    if DistinctDigests(pmap) {
      DistinctProxiesNoTies(pmap, nonElects, skip);
    }
    err := pi.None?;
  }
}
