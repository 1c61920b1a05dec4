/**
 Listing a local bucket page by page: the walk of one mountpath and the merge of a
 target's mountpaths (dfc/target.go), the merge of the targets (dfc/proxy.go). Names
 have no slash, so a mountpath's bucket is one directory, walked in order of names.
 An entry is its name. Results arrive in any order.
 */
module Paging {
  import opened Wrappers

  const DEFAULT_PAGE_SIZE: nat := 1000

  // ---- the order of names

  predicate Less(a: string, b: string) {
    b != "" && (a == "" || a[0] < b[0] || (a[0] == b[0] && Less(a[1..], b[1..])))
  }

  lemma {:induction false} LessTotal(a: string, b: string)
    ensures Less(a, b) || a == b || Less(b, a)
    ensures !(Less(a, b) && Less(b, a)) && !(Less(a, b) && a == b)
  {
    if a != "" && b != "" && a[0] == b[0] {
      LessTotal(a[1..], b[1..]);
      assert a == [a[0]] + a[1..] && b == [b[0]] + b[1..];
    }
  }

  lemma {:induction false} LessTransitive(a: string, b: string, c: string)
    requires Less(a, b) && Less(b, c)
    ensures Less(a, c)
  {
    if a != "" && a[0] == b[0] == c[0] {
      LessTransitive(a[1..], b[1..], c[1..]);
    }
  }

  lemma LessOrder()
    ensures forall a, b :: (Less(a, b) || a == b || Less(b, a)) && !(Less(a, b) && Less(b, a)) && !(Less(a, b) && a == b)
    ensures forall a, b, c :: Less(a, b) && Less(b, c) ==> Less(a, c)
  {
    forall a, b
      ensures (Less(a, b) || a == b || Less(b, a)) && !(Less(a, b) && Less(b, a)) && !(Less(a, b) && a == b)
    {
      LessTotal(a, b);
    }
    forall a, b, c | Less(a, b) && Less(b, c)
      ensures Less(a, c)
    {
      LessTransitive(a, b, c);
    }
  }

  // ---- the first k of a set of names

  ghost predicate IsTop(e: set<string>, s: set<string>, k: nat) {
    && e <= s && |e| == Min(k, |s|)
    && forall a, b | a in e && b in s - e :: Less(a, b)
  }

  lemma SubsetSize(a: set<string>, b: set<string>)
    requires a <= b
    ensures |a| <= |b| && (|a| == |b| ==> a == b)
  {
    if a != b {
      assert b == a + (b - a);
    }
  }

  lemma NoSwap(e: set<string>, f: set<string>, s: set<string>, k: nat, a: string, b: string)
    requires IsTop(e, s, k) && IsTop(f, s, k)
    ensures !(a in e && a !in f && b in f && b !in e)
  {
    hide Less;
    LessOrder();
    assert a in e && b in s - e ==> Less(a, b);
    assert b in f && a in s - f ==> Less(b, a);
  }

  lemma TopUnique(e: set<string>, f: set<string>, s: set<string>, k: nat)
    requires IsTop(e, s, k) && IsTop(f, s, k)
    ensures e == f
  {
    hide Less;
    if !(e <= f) {
      var a :| a in e && a !in f;
      if f <= e {
        SubsetSize(f, e);
      } else {
        var b :| b in f && b !in e;
        NoSwap(e, f, s, k, a, b);
      }
    } else {
      SubsetSize(e, f);
    }
  }

  ghost function Union(ss: seq<set<string>>): set<string> {
    set i, x | 0 <= i < |ss| && x in ss[i] :: x
  }

  /** Merging: the first k of the parts' first k are the first k of everything. */
  lemma TopOfTops(es: seq<set<string>>, ss: seq<set<string>>, k: nat, e: set<string>)
    requires |es| == |ss| && forall i :: 0 <= i < |es| ==> IsTop(es[i], ss[i], k)
    requires IsTop(e, Union(es), k)
    ensures IsTop(e, Union(ss), k)
  {
    hide Less;
    var u, all := Union(es), Union(ss);
    assert u <= all by { UnionGrows(es, ss); }
    SubsetSize(u, all);
    forall a, b | a in e && b in all - e
      ensures Less(a, b)
    {
      if b !in u {
        var i :| 0 <= i < |ss| && b in ss[i];
        assert b !in es[i] && es[i] <= u;
        FullPart(es[i], ss[i], u, e, k, a, b);
      }
    }
    if |u| < k {
      SmallParts(es, ss, k);
    }
  }

  lemma UnionGrows(es: seq<set<string>>, ss: seq<set<string>>)
    requires |es| == |ss| && forall i :: 0 <= i < |es| ==> es[i] <= ss[i]
    ensures Union(es) <= Union(ss)
  {}

  /** A name left out of a full part is behind everything that is taken. */
  lemma FullPart(part: set<string>, s: set<string>, u: set<string>, e: set<string>, k: nat, a: string, b: string)
    requires IsTop(part, s, k) && part <= u && IsTop(e, u, k) && a in e && b in s - part && b !in u
    ensures Less(a, b)
  {
    hide Less;
    LessOrder();
    SubsetSize(part, s);
    SubsetSize(part, u);
    assert |part| == k == |e|;
    if !Less(a, b) {
      forall x | x in part
        ensures x in e
      {
        assert Less(x, b);
      }
      assert part + {a} <= e && a !in part;
      SubsetSize(part + {a}, e);
    }
  }

  lemma SmallParts(es: seq<set<string>>, ss: seq<set<string>>, k: nat)
    requires |es| == |ss| && (forall i :: 0 <= i < |es| ==> IsTop(es[i], ss[i], k)) && |Union(es)| < k
    ensures Union(es) == Union(ss)
  {
    hide Less;
    forall i | 0 <= i < |es|
      ensures es[i] == ss[i]
    {
      assert es[i] <= Union(es);
      SubsetSize(es[i], Union(es));
      SubsetSize(es[i], ss[i]);
    }
    assert es == ss;
  }

  // ---- lists of names

  ghost function Elems(s: seq<string>): set<string> {
    set x | x in s
  }

  ghost predicate Ascending(s: seq<string>) {
    forall i, j :: 0 <= i < j < |s| ==> Less(s[i], s[j])
  }

  ghost predicate Ordered(s: seq<string>) {
    forall i, j :: 0 <= i < j < |s| ==> !Less(s[j], s[i])
  }

  lemma {:induction false} ElemsSize(s: seq<string>)
    requires NoDup(s)
    ensures |Elems(s)| == |s|
  {
    if s != [] {
      var n := |s| - 1;
      ElemsSize(s[..n]);
      assert s == s[..n] + [s[n]];
      assert Elems(s) == Elems(s[..n]) + {s[n]};
      assert s[n] !in s[..n];
    }
  }

  lemma NoDupAppend(a: seq<string>, b: seq<string>)
    requires NoDup(a) && NoDup(b) && Elems(a) !! Elems(b)
    ensures NoDup(a + b) && Elems(a + b) == Elems(a) + Elems(b)
  {
    forall i, j | 0 <= i < j < |a + b|
      ensures (a + b)[i] != (a + b)[j]
    {
      if i < |a| <= j {
        assert a[i] in Elems(a) && b[j - |a|] in Elems(b);
      }
    }
  }

  lemma AscendingNoDup(s: seq<string>)
    requires Ascending(s)
    ensures NoDup(s)
  {
    hide Less;
    LessOrder();
  }

  lemma NoElems(s: seq<string>)
    ensures Elems(s) == {} <==> s == []
  {
    assert s != [] ==> s[0] in Elems(s);
  }

  /** Only one ascending list has these elements. */
  lemma {:induction false} AscendingUnique(a: seq<string>, b: seq<string>)
    requires Ascending(a) && Ascending(b) && Elems(a) == Elems(b)
    ensures a == b
  {
    hide Less;
    LessOrder();
    NoElems(a);
    NoElems(b);
    if a != [] && b != [] {
      var x, y := a[|a| - 1], b[|b| - 1];
      LastIsGreatest(a, y);
      LastIsGreatest(b, x);
      ElemsButLast(a);
      ElemsButLast(b);
      AscendingUnique(a[..|a| - 1], b[..|b| - 1]);
      assert a == a[..|a| - 1] + [x] && b == b[..|b| - 1] + [y];
    }
  }

  lemma LastIsGreatest(s: seq<string>, x: string)
    requires Ascending(s) && s != []
    ensures x in Elems(s) ==> x == s[|s| - 1] || Less(x, s[|s| - 1])
  {
    hide Less;
  }

  lemma ElemsButLast(s: seq<string>)
    requires Ascending(s) && s != []
    ensures Elems(s[..|s| - 1]) == Elems(s) - {s[|s| - 1]}
  {
    hide Less;
    AscendingNoDup(s);
    var n := |s| - 1;
    assert s == s[..n] + [s[n]];
    assert s[n] !in s[..n];
  }

  // ---- sorting

  function Insert(x: string, s: seq<string>): (r: seq<string>)
    requires Ordered(s)
    ensures Ordered(r) && multiset(r) == multiset(s) + multiset{x}
  {
    if s == [] || Less(x, s[0]) then
      SmallestFirst(x, s);
      [x] + s
    else
      var t := Insert(x, s[1..]);
      assert s == [s[0]] + s[1..];
      InsertedAbove(s[0], t, x, s[1..]);
      [s[0]] + t
  }

  lemma SmallestFirst(x: string, s: seq<string>)
    requires Ordered(s) && (s == [] || Less(x, s[0]))
    ensures Ordered([x] + s)
  {
    hide Less;
    LessOrder();
  }

  lemma InsertedAbove(y: string, t: seq<string>, x: string, s: seq<string>)
    requires Ordered(t) && Ordered([y] + s) && multiset(t) == multiset(s) + multiset{x} && !Less(x, y)
    ensures Ordered([y] + t)
  {
    hide Less;
    forall j | 0 <= j < |t|
      ensures !Less(t[j], y)
    {
      assert t[j] in multiset(t);
      if t[j] != x {
        assert t[j] in multiset(s);
        var k :| 0 <= k < |s| && s[k] == t[j];
        assert ([y] + s)[0] == y && ([y] + s)[k + 1] == s[k];
      }
    }
  }

  function Sort(s: seq<string>): (r: seq<string>)
    ensures Ordered(r) && multiset(r) == multiset(s)
  {
    if s == [] then [] else assert s == [s[0]] + s[1..]; Insert(s[0], Sort(s[1..]))
  }

  lemma SortDistinct(s: seq<string>)
    requires NoDup(s)
    ensures Ascending(Sort(s)) && Elems(Sort(s)) == Elems(s) && |Sort(s)| == |s|
  {
    hide Less, Sort;
    LessOrder();
    var r := Sort(s);
    SameElems(r, s);
    ElemsSize(s);
    assert |multiset(r)| == |multiset(s)|;
    SizeNoDup(r);
  }

  lemma SameElems(a: seq<string>, b: seq<string>)
    requires multiset(a) == multiset(b)
    ensures Elems(a) == Elems(b)
  {
    forall x
      ensures x in a <==> x in b
    {
      assert x in a <==> x in multiset(a);
      assert x in b <==> x in multiset(b);
    }
  }

  lemma {:induction false} SizeNoDup(s: seq<string>)
    requires |Elems(s)| == |s|
    ensures NoDup(s)
  {
    if s != [] {
      var n := |s| - 1;
      assert s == s[..n] + [s[n]];
      assert Elems(s) == Elems(s[..n]) + {s[n]};
      ElemsAtMost(s[..n]);
      SizeNoDup(s[..n]);
      assert s[n] !in Elems(s[..n]);
      forall i | 0 <= i < n
        ensures s[i] != s[n]
      {
        assert s[..n][i] == s[i];
      }
    }
  }

  lemma {:induction false} ElemsAtMost(s: seq<string>)
    ensures |Elems(s)| <= |s|
  {
    if s != [] {
      var n := |s| - 1;
      ElemsAtMost(s[..n]);
      assert s == s[..n] + [s[n]];
      assert Elems(s) == Elems(s[..n]) + {s[n]};
    }
  }

  /** Cutting an ascending list off after k names leaves the first k. */
  lemma CutIsTop(s: seq<string>, k: nat)
    requires Ascending(s)
    ensures IsTop(Elems(s[..Min(k, |s|)]), Elems(s), k) && Ascending(s[..Min(k, |s|)])
  {
    hide Less;
    AscendingNoDup(s);
    var n := Min(k, |s|);
    ElemsSize(s);
    ElemsSize(s[..n]);
    assert forall j :: 0 <= j < n ==> s[..n][j] == s[j];
    forall a, b | a in Elems(s[..n]) && b in Elems(s) - Elems(s[..n])
      ensures Less(a, b)
    {
      var i :| 0 <= i < n && s[i] == a;
      var j :| 0 <= j < |s| && s[j] == b;
    }
  }

  lemma WholeIsTop(s: seq<string>, k: nat)
    requires NoDup(s) && |s| <= k
    ensures IsTop(Elems(s), Elems(s), k)
  {
    ElemsSize(s);
  }

  // ---- the walk of one mountpath

  /** A file in the bucket's directory; work files are not processed. */
  datatype File = File(name: string, process: bool)

  /** A directory in order of names, or none, or one that cannot be read. */
  datatype Directory = Listing(files: seq<File>) | Missing | Unreadable

  predicate Matches(name: string, prefix: string, marker: string) {
    (prefix == "" || prefix <= name) && (marker == "" || Less(marker, name))
  }

  ghost function Matching(names: set<string>, prefix: string, marker: string): set<string> {
    set n | n in names && Matches(n, prefix, marker)
  }

  ghost function Listed(files: seq<File>): set<string> {
    set f | f in files && f.process :: f.name
  }

  ghost predicate InOrder(files: seq<File>) {
    forall i, j :: 0 <= i < j < |files| ==> Less(files[i].name, files[j].name)
  }

  function Filter(files: seq<File>, prefix: string, marker: string): seq<string> {
    if files == [] then []
    else
      var f := files[|files| - 1];
      Filter(files[..|files| - 1], prefix, marker) + if f.process && Matches(f.name, prefix, marker) then [f.name] else []
  }

  lemma ListedOneMore(files: seq<File>)
    requires files != []
    ensures
      var n := |files| - 1;
      Listed(files) == Listed(files[..n]) + if files[n].process then {files[n].name} else {}
  {
    var n := |files| - 1;
    assert files == files[..n] + [files[n]];
  }

  lemma MatchingUnion(a: set<string>, b: set<string>, prefix: string, marker: string)
    ensures Matching(a + b, prefix, marker) == Matching(a, prefix, marker) + Matching(b, prefix, marker)
  {
    hide Matches;
  }

  lemma ElemsAppend(a: seq<string>, b: seq<string>)
    ensures Elems(a + b) == Elems(a) + Elems(b)
  {}

  lemma {:induction false} FilterElems(files: seq<File>, prefix: string, marker: string)
    ensures Elems(Filter(files, prefix, marker)) == Matching(Listed(files), prefix, marker)
  {
    hide Matches;
    if files != [] {
      var n := |files| - 1;
      FilterElems(files[..n], prefix, marker);
      ListedOneMore(files);
      var more := if files[n].process then {files[n].name} else {};
      MatchingUnion(Listed(files[..n]), more, prefix, marker);
      var last := if files[n].process && Matches(files[n].name, prefix, marker) then [files[n].name] else [];
      ElemsAppend(Filter(files[..n], prefix, marker), last);
      assert Matching(more, prefix, marker) == Elems(last);
    }
  }

  lemma {:induction false} FilterAscending(files: seq<File>, prefix: string, marker: string)
    requires InOrder(files)
    ensures Ascending(Filter(files, prefix, marker))
    ensures forall x | x in Filter(files, prefix, marker) :: exists i :: 0 <= i < |files| && files[i].name == x
  {
    hide Matches, Less;
    if files != [] {
      var n := |files| - 1;
      var before := Filter(files[..n], prefix, marker);
      FilterAscending(files[..n], prefix, marker);
      forall x | x in before
        ensures Less(x, files[n].name)
      {
        var i :| 0 <= i < n && files[..n][i].name == x;
        assert files[i].name == x;
      }
      assert forall x | x in before :: exists i :: 0 <= i < n && files[i].name == x;
    }
  }

  lemma {:induction false} FilterPrefix(files: seq<File>, i: nat, prefix: string, marker: string)
    requires i <= |files|
    ensures Filter(files[..i], prefix, marker) <= Filter(files, prefix, marker)
  {
    hide Matches;
    if i < |files| {
      FilterPrefix(files[..|files| - 1], i, prefix, marker);
      assert files[..|files| - 1][..i] == files[..i];
    } else {
      assert files[..i] == files;
    }
  }

  /** The callback over the directory: it stops when the page is full. */
  method ListWalk(files: seq<File>, prefix: string, marker: string, limit: nat) returns (names: seq<string>)
    requires InOrder(files)
    ensures Ascending(names) && IsTop(Elems(names), Matching(Listed(files), prefix, marker), limit)
  {
    hide Matches, Less, Ascending, IsTop, Elems, Matching, Listed, InOrder;
    names := [];
    var i, fileCount := 0, 0;
    while i < |files| && fileCount < limit
      invariant 0 <= i <= |files| && fileCount == |names| <= limit
      invariant names == Filter(files[..i], prefix, marker)
    {
      assert files[..i + 1][..i] == files[..i];
      if files[i].process && Matches(files[i].name, prefix, marker) {
        fileCount := fileCount + 1;
        names := names + [files[i].name];
      }
      i := i + 1;
    }
    assert i == |files| ==> files[..i] == files;
    FilterPrefix(files, i, prefix, marker);
    ghost var all := Filter(files, prefix, marker);
    assert names == all[..Min(limit, |all|)];
    FilterAscending(files, prefix, marker);
    FilterElems(files, prefix, marker);
    CutIsTop(Filter(files, prefix, marker), limit);
  }

  // ---- gathering parts

  ghost predicate Apart(sets: seq<set<string>>) {
    forall i, j :: 0 <= i < j < |sets| ==> sets[i] !! sets[j]
  }

  /** `entries` are the names of parts, each of them the first k of a whole. */
  ghost predicate Gathered(entries: seq<string>, parts: seq<set<string>>, wholes: seq<set<string>>, k: nat) {
    && NoDup(entries) && Elems(entries) == Union(parts) && |parts| == |wholes|
    && forall i :: 0 <= i < |parts| ==> IsTop(parts[i], wholes[i], k)
  }

  lemma GatherNone(k: nat)
    ensures Gathered([], [], [], k)
  {}

  lemma UnionOneMore(sets: seq<set<string>>, s: set<string>)
    ensures Union(sets + [s]) == Union(sets) + s
  {
    var more := sets + [s];
    forall x | x in Union(sets) + s
      ensures x in Union(more)
    {
      if x in s {
        assert more[|sets|] == s;
      } else {
        var i :| 0 <= i < |sets| && x in sets[i];
        assert more[i] == sets[i];
      }
    }
  }

  lemma GatherOne(entries: seq<string>, parts: seq<set<string>>, wholes: seq<set<string>>, k: nat,
                  names: seq<string>, whole: set<string>)
    requires Gathered(entries, parts, wholes, k) && NoDup(names) && IsTop(Elems(names), whole, k)
    requires whole !! Union(wholes)
    ensures Gathered(entries + names, parts + [Elems(names)], wholes + [whole], k)
  {
    hide NoDup, Less;
    UnionGrows(parts, wholes);
    TopWithin(Elems(names), whole, k);
    Disjoint4(Elems(entries), Elems(names), Union(wholes), whole);
    NoDupAppend(entries, names);
    UnionOneMore(parts, Elems(names));
  }

  lemma Disjoint4(a: set<string>, b: set<string>, c: set<string>, d: set<string>)
    requires a <= c && b <= d && d !! c
    ensures a !! b
  {}

  lemma TopWithin(e: set<string>, s: set<string>, k: nat)
    requires IsTop(e, s, k)
    ensures e <= s
  {}

  /** What is the first k of everything gathered is the first k of all the wholes. */
  lemma GatherEnd(entries: seq<string>, parts: seq<set<string>>, wholes: seq<set<string>>, k: nat, e: set<string>)
    requires Gathered(entries, parts, wholes, k) && IsTop(e, Elems(entries), k)
    ensures IsTop(e, Union(wholes), k)
  {
    hide IsTop, NoDup;
    TopOfTops(parts, wholes, k, e);
  }

  // ---- one target

  ghost function DirNames(d: Directory): set<string> {
    if d.Listing? then Listed(d.files) else {}
  }

  ghost function DirSets(dirs: seq<Directory>): (r: seq<set<string>>)
    ensures |r| == |dirs| && forall i :: 0 <= i < |dirs| ==> r[i] == DirNames(dirs[i])
  {
    seq(|dirs|, i requires 0 <= i < |dirs| => DirNames(dirs[i]))
  }

  ghost function TargetNames(dirs: seq<Directory>): set<string> {
    Union(DirSets(dirs))
  }

  predicate Readable(dirs: seq<Directory>) {
    forall i :: 0 <= i < |dirs| ==> !dirs[i].Unreadable?
  }

  /** Directories are walked in order of names, and every object is stored once. */
  ghost predicate Proper(dirs: seq<Directory>) {
    && (forall i :: 0 <= i < |dirs| && dirs[i].Listing? ==> InOrder(dirs[i].files))
    && Apart(DirSets(dirs))
  }

  function PageSize(asked: nat): (k: nat)
    ensures k > 0
  {
    if asked != 0 then asked else DEFAULT_PAGE_SIZE
  }

  ghost function MatchingEach(sets: seq<set<string>>, prefix: string, marker: string): (r: seq<set<string>>)
    ensures |r| == |sets| && forall i :: 0 <= i < |sets| ==> r[i] == Matching(sets[i], prefix, marker)
  {
    seq(|sets|, i requires 0 <= i < |sets| => Matching(sets[i], prefix, marker))
  }

  lemma MatchingOfUnion(sets: seq<set<string>>, prefix: string, marker: string)
    ensures Union(MatchingEach(sets, prefix, marker)) == Matching(Union(sets), prefix, marker)
  {
    hide Matches, MatchingEach;
    var each := MatchingEach(sets, prefix, marker);
    forall x | x in Matching(Union(sets), prefix, marker)
      ensures x in Union(each)
    {
      var i :| 0 <= i < |sets| && x in sets[i];
      assert x in each[i];
    }
  }

  /** The i-th part is apart from those before it. */
  lemma NextApart(sets: seq<set<string>>, prefix: string, marker: string, i: nat)
    requires Apart(sets) && i < |sets|
    ensures Matching(sets[i], prefix, marker) !! Union(MatchingEach(sets, prefix, marker)[..i])
  {
    hide Matches, MatchingEach;
    var each := MatchingEach(sets, prefix, marker);
    forall x | x in Union(each[..i])
      ensures x !in Matching(sets[i], prefix, marker)
    {
      var j :| 0 <= j < i && x in each[..i][j];
      assert x in each[j] && x in sets[j] && sets[j] !! sets[i];
    }
  }

  method WalkMpath(dir: Directory, prefix: string, marker: string, limit: nat) returns (names: seq<string>)
    requires dir.Listing? ==> InOrder(dir.files)
    ensures Ascending(names) && IsTop(Elems(names), Matching(DirNames(dir), prefix, marker), limit)
  {
    if dir.Listing? {
      names := ListWalk(dir.files, prefix, marker, limit);
    } else {
      names := [];
      assert Matching({}, prefix, marker) == {} && Elems([]) == {};
    }
  }

  /** Sorts and cuts only when there is more than a page. */
  method PrepareLocalObjectList(dirs: seq<Directory>, prefix: string, marker: string, asked: nat)
      returns (r: Option<seq<string>>)
    requires Proper(dirs)
    ensures r.Some? <==> Readable(dirs)
    ensures r.Some? ==> NoDup(r.value)
                        && IsTop(Elems(r.value), Matching(TargetNames(dirs), prefix, marker), PageSize(asked))
  {
    hide Gathered, Union, Matching, IsTop, NoDup, Elems, DirSets, MatchingEach, Apart, InOrder, Ascending, Less, DirNames;
    var pageSize := PageSize(asked);
    var entries: seq<string> := [];
    ghost var sets := DirSets(dirs);
    ghost var wholes := MatchingEach(sets, prefix, marker);
    ghost var parts: seq<set<string>> := [];
    var i := 0;
    GatherNone(pageSize);
    assert wholes[..0] == [];
    while i < |dirs|
      invariant 0 <= i <= |dirs| && forall j :: 0 <= j < i ==> !dirs[j].Unreadable?
      invariant Gathered(entries, parts, wholes[..i], pageSize)
    {
      if dirs[i].Unreadable? {
        return None;
      }
      var names := WalkMpath(dirs[i], prefix, marker, pageSize);
      AscendingNoDup(names);
      NextApart(sets, prefix, marker, i);
      GatherOne(entries, parts, wholes[..i], pageSize, names, wholes[i]);
      assert wholes[..i] + [wholes[i]] == wholes[..i + 1];
      entries := entries + names;
      parts := parts + [Elems(names)];
      i := i + 1;
    }
    assert wholes[..i] == wholes;
    GatheredNoDup(entries, parts, wholes, pageSize);
    MatchingOfUnion(sets, prefix, marker);
    var cut := entries;
    if |entries| > pageSize {
      SortDistinct(entries);
      CutIsTop(Sort(entries), pageSize);
      cut := Sort(entries)[..pageSize];
      AscendingNoDup(cut);
    } else {
      WholeIsTop(entries, pageSize);
    }
    GatherEnd(entries, parts, wholes, pageSize, Elems(cut));
    r := Some(cut);
  }

  lemma GatheredNoDup(entries: seq<string>, parts: seq<set<string>>, wholes: seq<set<string>>, k: nat)
    requires Gathered(entries, parts, wholes, k)
    ensures NoDup(entries)
  {}

  // ---- the proxy

  /** A target answers from its mountpaths, or its answer is an error. */
  datatype Target = Answers(dirs: seq<Directory>) | Fails

  ghost function NamesAt(t: Target): set<string> {
    if t.Answers? then TargetNames(t.dirs) else {}
  }

  ghost function TargetSets(targets: seq<Target>): (r: seq<set<string>>)
    ensures |r| == |targets| && forall i :: 0 <= i < |targets| ==> r[i] == NamesAt(targets[i])
  {
    seq(|targets|, i requires 0 <= i < |targets| => NamesAt(targets[i]))
  }

  /** All objects of the bucket. */
  ghost function AllNames(targets: seq<Target>): set<string> {
    Union(TargetSets(targets))
  }

  predicate Healthy(t: Target) {
    t.Answers? && Readable(t.dirs)
  }

  predicate AllHealthy(targets: seq<Target>) {
    forall i :: 0 <= i < |targets| ==> Healthy(targets[i])
  }

  ghost predicate ProperCluster(targets: seq<Target>) {
    && (forall i :: 0 <= i < |targets| && targets[i].Answers? ==> Proper(targets[i].dirs))
    && Apart(TargetSets(targets))
  }

  /** A page: the first k names in order, with a marker iff it is full. */
  ghost predicate IsPage(page: seq<string>, next: string, names: set<string>, k: nat) {
    && Ascending(page) && IsTop(Elems(page), names, k)
    && |page| == Min(k, |names|)
    && next == if |names| >= k > 0 then page[k - 1] else ""
  }

  /** A file that may be shown is in a listed directory of a target that answers, and is no work file. */
  ghost predicate Stored(targets: seq<Target>, name: string) {
    exists t, d, f ::
      && t in targets && t.Answers? && d in t.dirs && d.Listing?
      && f in d.files && f.process && f.name == name
  }

  lemma NamesAreStored(targets: seq<Target>, name: string)
    ensures name in AllNames(targets) <==> Stored(targets, name)
  {
    if name in AllNames(targets) {
      var i :| 0 <= i < |targets| && name in TargetSets(targets)[i];
      var t := targets[i];
      var j :| 0 <= j < |t.dirs| && name in DirSets(t.dirs)[j];
      var d := t.dirs[j];
      var f :| f in d.files && f.process && f.name == name;
      assert t in targets && d in t.dirs;
    }
    if t, d, f :| t in targets && t.Answers? && d in t.dirs && d.Listing? && f in d.files && f.process && f.name == name {
      assert name in Listed(d.files);
      var j :| 0 <= j < |t.dirs| && t.dirs[j] == d;
      assert name in DirSets(t.dirs)[j];
      var i :| 0 <= i < |targets| && targets[i] == t;
      assert name in TargetSets(targets)[i];
    }
  }

  /** What a page shows, told without sets: stored names that begin with the prefix and lie behind the marker. */
  ghost predicate Fits(targets: seq<Target>, prefix: string, marker: string, name: string) {
    Stored(targets, name) && prefix <= name && (marker == "" || Less(marker, name))
  }

  /**
   A page holds at most as many names as asked for, or a thousand. Every name on it fits, and a
   name that fits and is not on it comes behind a full page.
   */
  lemma PageShows(targets: seq<Target>, prefix: string, marker: string, asked: nat, page: seq<string>, next: string)
    requires IsPage(page, next, Matching(AllNames(targets), prefix, marker), PageSize(asked))
    ensures |page| <= if asked > 0 then asked else 1000
    ensures forall x :: x in page ==> Fits(targets, prefix, marker, x)
    ensures forall x, y :: Fits(targets, prefix, marker, x) && x !in page && y in page ==> Less(y, x)
    ensures forall x :: Fits(targets, prefix, marker, x) && x !in page ==>
      |page| == (if asked > 0 then asked else 1000)
    ensures next == if |page| == (if asked > 0 then asked else 1000) then page[|page| - 1] else ""
  {
    hide Less, AllNames, Stored;
    var names := Matching(AllNames(targets), prefix, marker);
    forall x
      ensures x in names <==> Fits(targets, prefix, marker, x)
      ensures x in page <==> x in Elems(page)
    {
      NamesAreStored(targets, x);
    }
    AscendingNoDup(page);
    ElemsSize(page);
    forall x | Fits(targets, prefix, marker, x) && x !in page
      ensures |names| > |page|
    {
      assert x in names;
      SubsetSize(Elems(page) + {x}, names);
    }
  }

  method GetLocalBucketObjects(targets: seq<Target>, prefix: string, marker: string, asked: nat)
      returns (r: Option<(seq<string>, string)>)
    requires ProperCluster(targets)
    ensures r.Some? <==> AllHealthy(targets)
    ensures r.Some? ==> IsPage(r.value.0, r.value.1, Matching(AllNames(targets), prefix, marker), PageSize(asked))
  {
    hide Gathered, Union, Matching, IsTop, NoDup, Elems, TargetSets, MatchingEach, Apart, Ascending, Less, NamesAt, Proper,
      Readable, Sort, Ordered, TargetNames;
    var pageSize := PageSize(asked);
    var entries: seq<string> := [];
    ghost var sets := TargetSets(targets);
    ghost var wholes := MatchingEach(sets, prefix, marker);
    ghost var parts: seq<set<string>> := [];
    var i := 0;
    GatherNone(pageSize);
    assert wholes[..0] == [];
    while i < |targets|
      invariant 0 <= i <= |targets| && forall j :: 0 <= j < i ==> Healthy(targets[j])
      invariant Gathered(entries, parts, wholes[..i], pageSize)
    {
      if targets[i].Fails? {
        return None;
      }
      var names := PrepareLocalObjectList(targets[i].dirs, prefix, marker, asked);
      if names.None? {
        return None;
      }
      NamesOfAnswer(targets[i]);
      NextApart(sets, prefix, marker, i);
      GatherOne(entries, parts, wholes[..i], pageSize, names.value, wholes[i]);
      assert wholes[..i] + [wholes[i]] == wholes[..i + 1];
      entries := entries + names.value;
      parts := parts + [Elems(names.value)];
      i := i + 1;
    }
    assert wholes[..i] == wholes;
    GatheredNoDup(entries, parts, wholes, pageSize);
    MatchingOfUnion(sets, prefix, marker);
    SortDistinct(entries);
    var page, next := Sort(entries), "";
    CutIsTop(page, pageSize);
    ghost var names := Matching(AllNames(targets), prefix, marker);
    GatherEnd(entries, parts, wholes, pageSize, Elems(page[..Min(pageSize, |page|)]));
    TopSize(page[..Min(pageSize, |page|)], names, pageSize);
    if |page| >= pageSize {
      page := page[..pageSize];
      next := page[pageSize - 1];
    } else {
      assert page[..|page|] == page;
    }
    r := Some((page, next));
  }

  lemma NamesOfAnswer(t: Target)
    requires t.Answers?
    ensures NamesAt(t) == TargetNames(t.dirs)
  {}

  lemma TopSize(page: seq<string>, names: set<string>, k: nat)
    requires Ascending(page) && IsTop(Elems(page), names, k)
    ensures |page| == Min(k, |names|)
  {
    AscendingNoDup(page);
    ElemsSize(page);
  }

  /** There is only one page for a request. */
  lemma PageUnique(p: seq<string>, m: string, q: seq<string>, n: string, names: set<string>, k: nat)
    requires IsPage(p, m, names, k) && IsPage(q, n, names, k)
    ensures p == q && m == n
  {
    hide IsTop, Elems, Ascending;
    TopUnique(Elems(p), Elems(q), names, k);
    AscendingUnique(p, q);
  }

  // ---- all pages

  /** What is left behind the new marker is what the page does not show. */
  lemma BehindMarker(names: set<string>, prefix: string, marker: string, page: seq<string>, next: string, k: nat)
    requires k > 0 && IsPage(page, next, Matching(names, prefix, marker), k) && next != ""
    ensures Matching(names, prefix, next) == Matching(names, prefix, marker) - Elems(page)
  {
    hide Less;
    LessOrder();
    var before := Matching(names, prefix, marker);
    var last := page[|page| - 1];
    assert next == last && last in Elems(page) && last in before;
    forall x | x in names
      ensures x in Matching(names, prefix, next) <==> x in before - Elems(page)
    {
      LastIsGreatest(page, x);
      assert marker != "" ==> Less(marker, last);
    }
  }

  /** Together the pages so far and what is left make up everything, in order. */
  ghost predicate Shown(shown: seq<string>, names: set<string>, prefix: string, marker: string) {
    && Ascending(shown)
    && Elems(shown) !! Matching(names, prefix, marker)
    && Elems(shown) + Matching(names, prefix, marker) == Matching(names, prefix, "")
    && forall a, b | a in Elems(shown) && b in Matching(names, prefix, marker) :: Less(a, b)
  }

  lemma ShowPage(shown: seq<string>, names: set<string>, prefix: string, marker: string,
                 page: seq<string>, next: string, k: nat)
    requires Shown(shown, names, prefix, marker) && k > 0
    requires IsPage(page, next, Matching(names, prefix, marker), k)
    ensures next != "" ==> Shown(shown + page, names, prefix, next)
    ensures next != "" ==> |Matching(names, prefix, next)| < |Matching(names, prefix, marker)|
    ensures next == "" && "" !in names ==> Ascending(shown + page) && Elems(shown + page) == Matching(names, prefix, "")
  {
    hide Less, Matching;
    var before := Matching(names, prefix, marker);
    AppendPage(shown, page, before, k);
    ElemsAppend(shown, page);
    if next != "" {
      BehindMarker(names, prefix, marker, page, next, k);
      LeftOver(Elems(shown), Elems(page), before);
      NextIsShown(page, next, before, k);
    } else if "" !in names {
      NotFull(names, prefix, marker, page, next, k);
    }
  }

  lemma AppendPage(shown: seq<string>, page: seq<string>, before: set<string>, k: nat)
    requires Ascending(shown) && Ascending(page) && IsTop(Elems(page), before, k)
    requires forall a, b | a in Elems(shown) && b in before :: Less(a, b)
    ensures Ascending(shown + page)
  {
    hide Less;
    forall i, j | 0 <= i < j < |shown + page|
      ensures Less((shown + page)[i], (shown + page)[j])
    {
      if i < |shown| <= j {
        assert shown[i] in Elems(shown) && page[j - |shown|] in Elems(page);
      }
    }
  }

  lemma LeftOver(shown: set<string>, page: set<string>, before: set<string>)
    requires shown !! before && page <= before
    ensures (shown + page) !! (before - page) && shown + page + (before - page) == shown + before
  {}

  lemma NextIsShown(page: seq<string>, next: string, before: set<string>, k: nat)
    requires k > 0 && IsPage(page, next, before, k) && next != ""
    ensures |before - Elems(page)| < |before|
  {
    hide Less;
    assert page[k - 1] in Elems(page);
    SubsetSize(before - Elems(page), before);
  }

  /** A page without a marker is the last one. */
  lemma NotFull(names: set<string>, prefix: string, marker: string, page: seq<string>, next: string, k: nat)
    requires k > 0 && IsPage(page, next, Matching(names, prefix, marker), k) && next == "" && "" !in names
    ensures Elems(page) == Matching(names, prefix, marker)
  {
    hide Less;
    var before := Matching(names, prefix, marker);
    AscendingNoDup(page);
    ElemsSize(page);
    assert forall i :: 0 <= i < |page| ==> page[i] in Elems(page);
    SubsetSize(Elems(page), before);
  }

  /**
   Asking for page after page ends, and shows every matching object exactly once and
   in order, whatever the page size.
   */
  method ListBucket(targets: seq<Target>, prefix: string, asked: nat) returns (r: Option<seq<string>>)
    requires ProperCluster(targets) && "" !in AllNames(targets)
    ensures r.Some? <==> AllHealthy(targets)
    ensures r.Some? ==> Ascending(r.value) && Elems(r.value) == Matching(AllNames(targets), prefix, "")
  {
    hide Shown, IsPage, Matching, Ascending, AllHealthy, ProperCluster, AllNames, Elems;
    ghost var names := AllNames(targets);
    var shown, marker := [], "";
    NothingShown(names, prefix);
    while true
      invariant Shown(shown, names, prefix, marker)
      decreases |Matching(names, prefix, marker)|
    {
      var page := GetLocalBucketObjects(targets, prefix, marker, asked);
      if page.None? {
        return None;
      }
      ShowPage(shown, names, prefix, marker, page.value.0, page.value.1, PageSize(asked));
      shown := shown + page.value.0;
      if page.value.1 == "" {
        return Some(shown);
      }
      marker := page.value.1;
    }
  }

  lemma NothingShown(names: set<string>, prefix: string)
    ensures Shown([], names, prefix, "")
  {}
}
