/**
 The mountpaths of a target (fs/mountfs.go) and the names of objects on them: the
 path of an object and the object of a path (fs/fqn.go, cluster/fqn.go).
 */
module MountedFs {
  import opened Wrappers
  import opened Paths
  import opened Mountpaths

  datatype MountpathInfo = MountpathInfo(path: string, origPath: string, fsid: int)

  // ---- which mountpaths Add takes

  predicate HasSuffix(s: string, suffix: string) {
    |suffix| <= |s| && s[|s| - |suffix|..] == suffix
  }

  predicate Contains(s: string, sub: string) {
    exists i :: 0 <= i <= |s| - |sub| && s[i..][..|sub|] == sub
  }

  /** The name of a bucket directory stands neither at the end nor in the middle. */
  predicate Accepts(mpath: string, dir: string) {
    !HasSuffix(mpath, [SEP] + dir) && !Contains(mpath, [SEP] + dir + [SEP])
  }

  lemma AcceptedParts(mpath: string, dir: string)
    requires Rooted(mpath) && IsName(dir) && Accepts(mpath, dir)
    ensures dir !in Split(mpath)
  {
    var cs := Split(mpath);
    GlueSplit(mpath);
    if dir in cs {
      var i :| 0 <= i < |cs| && cs[i] == dir;
      RootedFirst(mpath);
      assert i > 0;
      assert cs == cs[..i] + cs[i..];
      GlueAppend(cs[..i], cs[i..]);
      FoundIn(Glue(cs[..i]), cs[i..], dir, mpath);
    }
  }

  lemma RootedFirst(mpath: string)
    requires Rooted(mpath)
    ensures Split(mpath)[0] == ""
  {
    assert Upto(mpath) == 0;
  }

  lemma FoundIn(before: string, cs: seq<string>, dir: string, mpath: string)
    requires cs != [] && cs[0] == dir && mpath == before + [SEP] + Glue(cs)
    ensures !Accepts(mpath, dir)
  {
    if |cs| == 1 {
      assert mpath == before + ([SEP] + dir);
      assert HasSuffix(mpath, [SEP] + dir);
    } else {
      var sub := [SEP] + dir + [SEP];
      assert mpath == before + sub + Glue(cs[1..]);
      assert mpath[|before|..][..|sub|] == sub;
    }
  }

  /** What Add looks for in the string is a component: an absolute path is accepted iff the directory is not among its components. */
  lemma AcceptsExactly(mpath: string, dir: string)
    requires Rooted(mpath) && IsName(dir)
    ensures Accepts(mpath, dir) <==> dir !in Split(mpath)
  {
    hide Split;
    if Accepts(mpath, dir) {
      AcceptedParts(mpath, dir);
    } else if HasSuffix(mpath, [SEP] + dir) {
      var before := mpath[..|mpath| - |dir| - 1];
      assert mpath == before + ([SEP] + dir);
      assert mpath == before + [SEP] + dir;
      SplitAppend(before, dir);
      SplitOf(dir, "");
    } else {
      var sub := [SEP] + dir + [SEP];
      var i :| 0 <= i <= |mpath| - |sub| && mpath[i..][..|sub|] == sub;
      var before, after := mpath[..i], mpath[i + |sub|..];
      assert mpath == before + mpath[i..][..|sub|] + after;
      assert mpath == before + [SEP] + (dir + [SEP] + after);
      SplitAppend(before, dir + [SEP] + after);
      SplitOf(dir, after);
    }
  }

  /** A mountpath: absolute, clean, and with no bucket directory on the way. */
  ghost predicate IsMountpath(mpath: string, local: string, cloud: string) {
    exists cs :: Names(cs) && mpath == Abs(cs) && local !in cs && cloud !in cs
  }

  /** Accepted and absolute is enough, although Add looks at the path before cleaning it. */
  lemma AcceptedIsMountpath(mpath: string, local: string, cloud: string)
    requires Rooted(mpath) && IsName(local) && IsName(cloud) && Accepts(mpath, local) && Accepts(mpath, cloud)
    ensures IsMountpath(Clean(mpath), local, cloud)
  {
    hide Accepts, Clean, Split;
    AcceptedParts(mpath, local);
    AcceptedParts(mpath, cloud);
    var cs := CleanRooted(mpath);
  }

  // ---- the path of an object

  function Fqn(mpath: string, dir: string, bucket: string, objname: string): string {
    Join([Join([mpath, dir]), bucket, objname])
  }

  /** A clean relative name that stays below its bucket. */
  predicate IsObjName(objname: string) {
    Names(Split(objname))
  }

  lemma FqnParts(m: seq<string>, dir: string, bucket: string, objname: string)
    requires Names(m) && IsName(dir) && IsName(bucket) && IsObjName(objname)
    ensures Names(m + [dir] + [bucket] + Split(objname))
    ensures Fqn(Abs(m), dir, bucket, objname) == Abs(m + [dir] + [bucket] + Split(objname))
  {
    hide Join, Split, Abs, IsName, Glue;
    JoinName(m, dir);
    GlueSplit(objname);
    JoinBelow(m + [dir], bucket, Split(objname));
  }

  /**
   When the selection of a mountpath comes back empty-handed without an error, naming goes on
   with an empty mountpath and makes a relative path.
   */
  lemma NoMountpathName(dir: string, bucket: string, objname: string)
    requires IsName(dir)
    ensures !Rooted(Fqn("", dir, bucket, objname))
  {
    hide Clean, Glue;
    assert ["", dir][1..] == [dir];
    JoinGlued([dir]);
    GlueOne(dir);
    NotRootedName(dir);
    CleanRelative(dir);
    var top := Clean(dir);
    JoinGlued([top, bucket, objname]);
    Glue3(top, bucket, objname);
    var path := top + [SEP] + (bucket + [SEP] + objname);
    assert path[0] == top[0];
    CleanRelative(path);
  }

  lemma NotRootedName(dir: string)
    requires IsName(dir)
    ensures !Rooted(dir)
  {
    assert dir[0] in dir;
  }

  // ---- the object of a path

  datatype Parsed = Parsed(mpath: string, bucket: string, objname: string, isLocal: bool)

  /** The first two components and the rest. */
  function SplitN3(rel: string): seq<string> {
    var k := Upto(rel);
    if k == |rel| then [rel]
    else
      var rest := rel[k + 1..];
      var l := Upto(rest);
      if l == |rest| then [rel[..k], rest] else [rel[..k], rest[..l], rest[l + 1..]]
  }

  function ParseRel(mpath: string, rel: string, local: string, cloud: string): Option<Parsed> {
    var items := SplitN3(rel);
    if |items| < 3 then None
    else if items[1] == "" || items[2] == "" then None
    else if items[0] != local && items[0] != cloud then None
    else Some(Parsed(mpath, items[1], items[2], items[0] == local))
  }

  ghost function InfoOf(paths: set<string>, local: string, cloud: string, fqn: string): Option<Parsed> {
    var targ := Clean(fqn);
    match Locate(paths, targ)
    case None => None
    case Some(m) => ParseRel(m, Relative(m, targ).value, local, cloud)
  }

  lemma SplitN3Of(a: string, b: string, rest: string)
    requires Flat(a) && Flat(b)
    ensures SplitN3(a) == [a] && SplitN3(a + [SEP] + b) == [a, b]
    ensures SplitN3(a + [SEP] + (b + [SEP] + rest)) == [a, b, rest]
  {
    hide Upto, Flat;
    UptoOf(a, b);
    UptoOf(a, b + [SEP] + rest);
    UptoOf(b, rest);
  }

  lemma SplitN3Three(a: string, b: string, rest: seq<string>)
    requires Flat(a) && Flat(b) && rest != []
    ensures SplitN3(Glue([a, b] + rest)) == [a, b, Glue(rest)]
  {
    hide Glue, SplitN3, Flat;
    SplitN3Of(a, b, Glue(rest));
    GluePair(a, b);
    GlueAppend([a, b], rest);
    assert a + [SEP] + b + [SEP] + Glue(rest) == a + [SEP] + (b + [SEP] + Glue(rest));
  }

  lemma SplitN3Names(cs: seq<string>)
    requires Names(cs) && cs != []
    ensures SplitN3(Glue(cs)) == if |cs| < 3 then cs else [cs[0], cs[1], Glue(cs[2..])]
  {
    hide *;
    FlatParts(cs);
    if |cs| == 1 {
      SplitN3Of(cs[0], cs[0], "");
      GlueOne(cs[0]);
    } else if |cs| == 2 {
      SplitN3Of(cs[0], cs[1], "");
      GluePair(cs[0], cs[1]);
    } else {
      SplitN3Three(cs[0], cs[1], cs[2..]);
    }
  }

  lemma FlatParts(cs: seq<string>)
    requires Names(cs) && cs != []
    ensures Flat(cs[0]) && (|cs| > 1 ==> Flat(cs[1]))
    ensures |cs| == 1 ==> cs == [cs[0]]
    ensures |cs| == 2 ==> cs == [cs[0], cs[1]]
    ensures |cs| > 2 ==> cs == [cs[0], cs[1]] + cs[2..]
  {
    assert IsName(cs[0]);
    assert |cs| > 1 ==> IsName(cs[1]);
  }

  /** Whatever path is parsed: a bucket and an object that come out are names. */
  lemma ParsedNames(m: seq<string>, t: seq<string>, local: string, cloud: string)
    requires Names(m) && Names(t) && Relative(Abs(m), Abs(t)).Some?
    ensures
      var r := ParseRel(Abs(m), Relative(Abs(m), Abs(t)).value, local, cloud);
      r.Some? ==> IsName(r.value.bucket) && IsObjName(r.value.objname)
  {
    hide Split, Glue, SplitN3, Upto;
    RelativeNames(m, t);
    var cs := t[|m|..];
    if m == t {
      DotAlone();
    } else {
      SplitN3Names(cs);
      if |cs| >= 3 {
        NamesFlat(cs[2..]);
        SplitGlue(cs[2..]);
      }
    }
  }

  lemma DotAlone()
    ensures SplitN3(".") == ["."]
  {
    UptoUnique(".", 1);
  }

  ghost predicate AllMountpaths(paths: set<string>, local: string, cloud: string) {
    forall m | m in paths :: IsMountpath(m, local, cloud)
  }

  lemma InfoNames(paths: set<string>, local: string, cloud: string, fqn: string)
    requires AllMountpaths(paths, local, cloud)
    ensures
      var r := InfoOf(paths, local, cloud, fqn);
      r.Some? ==> r.value.mpath in paths && IsName(r.value.bucket) && IsObjName(r.value.objname)
  {
    hide ParseRel, Relative, Clean, Abs, IsName, IsObjName;
    var targ := Clean(fqn);
    var at := Locate(paths, targ);
    if at.Some? {
      var m :| Names(m) && at.value == Abs(m) && local !in m && cloud !in m;
      if Rooted(fqn) {
        var t := CleanRooted(fqn);
        ParsedNames(m, t, local, cloud);
      } else {
        RelativeIsNowhere(m, fqn);
      }
    }
    ParseRelKeepsMpath(paths, local, cloud, fqn);
  }

  /** A relative path is below no absolute mountpath. */
  lemma RelativeIsNowhere(m: seq<string>, path: string)
    requires Names(m) && !Rooted(path)
    ensures Relative(Abs(m), Clean(path)) == None
  {
    hide Relative, Clean, Glue;
    NamesParts(m);
    var t := CleanForm(path);
    RelativeMixed(true, m, t);
  }

  lemma ParseRelKeepsMpath(paths: set<string>, local: string, cloud: string, fqn: string)
    ensures
      var r := InfoOf(paths, local, cloud, fqn);
      r.Some? ==> r.value.mpath in paths
  {
    hide Relative, Clean, SplitN3;
  }

  /** A mountpath below the object's own would have a bucket directory among its names. */
  lemma OwnMountpathIsLongest(paths: set<string>, local: string, cloud: string, m: seq<string>, dir: string, below: seq<string>)
    requires AllMountpaths(paths, local, cloud) && Names(m) && Names(m + [dir] + below) && Abs(m) in paths
    requires dir == local || dir == cloud
    ensures Locate(paths, Abs(m + [dir] + below)) == Some(Abs(m))
  {
    hide Relative, Abs;
    var t := m + [dir] + below;
    RelativeNames(m, t);
    forall p | p in paths && Relative(p, Abs(t)).Some?
      ensures |p| <= |Abs(m)|
    {
      var cs :| Names(cs) && p == Abs(cs) && local !in cs && cloud !in cs;
      RelativeNames(cs, t);
      PrefixWithout(cs, m, dir, below);
      ShorterPath(cs, m);
    }
    LocatedUnique(paths, Abs(t), Locate(paths, Abs(t)), Some(Abs(m)));
  }

  lemma PrefixWithout(cs: seq<string>, m: seq<string>, dir: string, below: seq<string>)
    requires cs <= m + [dir] + below && dir !in cs
    ensures cs <= m
  {
    assert (m + [dir] + below)[|m|] == dir;
  }

  lemma ShorterPath(a: seq<string>, b: seq<string>)
    requires a <= b
    ensures |Abs(a)| <= |Abs(b)|
  {
    if a != [] && a != b {
      GlueAppend(a, b[|a|..]);
      assert a + b[|a|..] == b;
    }
  }

  /**
   The round trip. Whichever mountpath the object is on, nested or not, its path
   leads back to the mountpath, bucket, object and locality it was made from, exactly
   when bucket and object are names; nothing else about them matters.
   */
  lemma FqnRoundTrip(paths: set<string>, local: string, cloud: string, mpath: string, bucket: string, objname: string, isLocal: bool)
    requires AllMountpaths(paths, local, cloud) && mpath in paths
    requires IsName(local) && IsName(cloud) && local != cloud
    ensures
      InfoOf(paths, local, cloud, Fqn(mpath, if isLocal then local else cloud, bucket, objname))
        == Some(Parsed(mpath, bucket, objname, isLocal))
      <==> IsName(bucket) && IsObjName(objname)
  {
    hide Fqn, InfoOf, IsName, IsObjName;
    var dir := if isLocal then local else cloud;
    InfoNames(paths, local, cloud, Fqn(mpath, dir, bucket, objname));
    if IsName(bucket) && IsObjName(objname) {
      FqnThere(paths, local, cloud, mpath, bucket, objname, isLocal);
    }
  }

  lemma FqnThere(paths: set<string>, local: string, cloud: string, mpath: string, bucket: string, objname: string, isLocal: bool)
    requires AllMountpaths(paths, local, cloud) && mpath in paths
    requires IsName(local) && IsName(cloud) && local != cloud && IsName(bucket) && IsObjName(objname)
    ensures
      InfoOf(paths, local, cloud, Fqn(mpath, if isLocal then local else cloud, bucket, objname))
        == Some(Parsed(mpath, bucket, objname, isLocal))
  {
    hide Fqn, Relative, Clean, Abs, Split, SplitN3, Glue;
    var dir := if isLocal then local else cloud;
    var m :| Names(m) && mpath == Abs(m) && local !in m && cloud !in m;
    var obj := Split(objname);
    var t := m + [dir] + [bucket] + obj;
    FqnParts(m, dir, bucket, objname);
    CleanAbs(t);
    assert t == m + [dir] + ([bucket] + obj);
    OwnMountpathIsLongest(paths, local, cloud, m, dir, [bucket] + obj);
    RelativeNames(m, t);
    var rel := [dir, bucket] + obj;
    assert t[|m|..] == rel && m != t && m <= t;
    SplitN3Names(rel);
    assert rel[2..] == obj;
    GlueSplit(objname);
    NonEmptyName(objname);
  }

  lemma NonEmptyName(objname: string)
    requires IsObjName(objname)
    ensures objname != ""
  {
    SplitOf("", "");
    assert IsName(Split(objname)[0]);
  }

  /**
   Parsing inverts naming for every path, clean or not: what comes out of a path are the mountpath,
   bucket, object and locality whose path it is when cleaned.
   */
  lemma InfoExactly(paths: set<string>, local: string, cloud: string, fqn: string, p: Parsed)
    requires AllMountpaths(paths, local, cloud) && IsName(local) && IsName(cloud) && local != cloud
    ensures InfoOf(paths, local, cloud, fqn) == Some(p) <==>
      && p.mpath in paths && IsName(p.bucket) && IsObjName(p.objname)
      && Clean(fqn) == Fqn(p.mpath, if p.isLocal then local else cloud, p.bucket, p.objname)
  {
    hide Fqn, Clean, IsName, IsObjName, AllMountpaths, InfoOf;
    InfoNames(paths, local, cloud, fqn);
    if InfoOf(paths, local, cloud, fqn) == Some(p) {
      InfoPath(paths, local, cloud, fqn, p);
    }
    if p.mpath in paths && IsName(p.bucket) && IsObjName(p.objname)
       && Clean(fqn) == Fqn(p.mpath, if p.isLocal then local else cloud, p.bucket, p.objname) {
      FqnThere(paths, local, cloud, p.mpath, p.bucket, p.objname, p.isLocal);
      InfoOfClean(paths, local, cloud, fqn);
    }
  }

  lemma InfoOfClean(paths: set<string>, local: string, cloud: string, fqn: string)
    ensures InfoOf(paths, local, cloud, Clean(fqn)) == InfoOf(paths, local, cloud, fqn)
  {
    hide Clean;
    CleanTwice(fqn);
  }

  lemma InfoPath(paths: set<string>, local: string, cloud: string, fqn: string, p: Parsed)
    requires AllMountpaths(paths, local, cloud) && IsName(local) && IsName(cloud) && local != cloud
    requires InfoOf(paths, local, cloud, fqn) == Some(p)
    ensures Clean(fqn) == Fqn(p.mpath, if p.isLocal then local else cloud, p.bucket, p.objname)
  {
    hide Fqn, Relative, Clean, Abs, Split, SplitN3, Glue, IsName;
    var targ := Clean(fqn);
    var at := Locate(paths, targ);
    var m :| Names(m) && at.value == Abs(m) && local !in m && cloud !in m;
    assert Rooted(fqn) by {
      if !Rooted(fqn) {
        RelativeIsNowhere(m, fqn);
      }
    }
    var t := CleanRooted(fqn);
    RelativeNames(m, t);
    DotAlone();
    assert m != t && m <= t;
    var cs := t[|m|..];
    SplitN3Names(cs);
    assert |cs| >= 3 && cs[1] == p.bucket && Glue(cs[2..]) == p.objname;
    var dir := if p.isLocal then local else cloud;
    NamesFlat(cs[2..]);
    SplitGlue(cs[2..]);
    assert IsName(cs[1]);
    FqnParts(m, dir, p.bucket, p.objname);
    assert t == m + [dir] + [p.bucket] + cs[2..];
  }

  /** Resolution of a path: it must be where its object belongs, and local as its bucket is. */
  ghost function Resolve(paths: set<string>, local: string, cloud: string, choose: (string, string) -> Option<string>,
                         bucketIsLocal: string -> bool, fqn: string): Option<(string, string)> {
    match InfoOf(paths, local, cloud, fqn)
    case None => None
    case Some(p) =>
      match choose(p.bucket, p.objname)
      case None => None
      case Some(m) =>
        if Fqn(m, if p.isLocal then local else cloud, p.bucket, p.objname) != fqn then None
        else if bucketIsLocal(p.bucket) != p.isLocal then None
        else Some((p.bucket, p.objname))
  }

  /**
   Resolution inverts naming exactly: a path resolves to an object iff it is the path
   the object gets, whatever the choice among mountpaths.
   */
  lemma ResolveExact(paths: set<string>, local: string, cloud: string, choose: (string, string) -> Option<string>,
                     bucketIsLocal: string -> bool, fqn: string, bucket: string, objname: string)
    requires AllMountpaths(paths, local, cloud) && IsName(local) && IsName(cloud) && local != cloud
    requires forall b, o :: choose(b, o).Some? ==> choose(b, o).value in paths
    ensures
      Resolve(paths, local, cloud, choose, bucketIsLocal, fqn) == Some((bucket, objname))
      <==> IsName(bucket) && IsObjName(objname) && choose(bucket, objname).Some?
           && fqn == Fqn(choose(bucket, objname).value, if bucketIsLocal(bucket) then local else cloud, bucket, objname)
  {
    hide Fqn, InfoOf, IsName, IsObjName, AllMountpaths;
    InfoNames(paths, local, cloud, fqn);
    if choose(bucket, objname).Some? {
      FqnRoundTrip(paths, local, cloud, choose(bucket, objname).value, bucket, objname, bucketIsLocal(bucket));
    }
  }

  // ---- the set of mountpaths

  /** One file system each, and known. */
  ghost predicate OneEach(available: map<string, MountpathInfo>, disabled: map<string, MountpathInfo>, known: set<int>) {
    && (forall p | p in available :: available[p].fsid in known)
    && (forall p | p in disabled :: disabled[p].fsid in known)
    && (forall p, q | p in available && q in available && p != q :: available[p].fsid != available[q].fsid)
    && (forall p, q | p in disabled && q in disabled && p != q :: disabled[p].fsid != disabled[q].fsid)
    && (forall p, q | p in available && q in disabled :: available[p].fsid != disabled[q].fsid)
  }

  /**
   Mountpaths are kept under their clean path; the absolute ones are free of bucket
   directories. As long as file systems are compared, no two of them, available or
   disabled, are on the same one.
   */
  ghost predicate Good(available: map<string, MountpathInfo>, disabled: map<string, MountpathInfo>, known: set<int>,
                       check: bool, local: string, cloud: string) {
    && (forall p | p in available :: available[p].path == p && IsClean(p))
    && (forall p | p in disabled :: disabled[p].path == p && IsClean(p))
    && (forall p | p in available && Rooted(p) :: IsMountpath(p, local, cloud))
    && (forall p | p in disabled && Rooted(p) :: IsMountpath(p, local, cloud))
    && (check ==> OneEach(available, disabled, known))
  }

  lemma GoodAdd(available: map<string, MountpathInfo>, disabled: map<string, MountpathInfo>, known: set<int>,
                check: bool, local: string, cloud: string, mp: MountpathInfo)
    requires Good(available, disabled, known, check, local, cloud)
    requires check ==> mp.fsid !in known
    requires IsClean(mp.path) && (Rooted(mp.path) ==> IsMountpath(mp.path, local, cloud))
    ensures Good(available[mp.path := mp], disabled, known + {mp.fsid}, check, local, cloud)
  {
    hide IsClean, Rooted, IsMountpath;
  }

  lemma GoodRemove(available: map<string, MountpathInfo>, disabled: map<string, MountpathInfo>, known: set<int>,
                   check: bool, local: string, cloud: string, p: string)
    requires Good(available, disabled, known, check, local, cloud)
    ensures p in available ==> Good(available - {p}, disabled, known - {available[p].fsid}, check, local, cloud)
    ensures p in disabled ==> Good(available, disabled - {p}, known - {disabled[p].fsid}, check, local, cloud)
  {
    hide IsClean, Rooted, IsMountpath;
  }

  lemma GoodMove(available: map<string, MountpathInfo>, disabled: map<string, MountpathInfo>, known: set<int>,
                 check: bool, local: string, cloud: string, p: string)
    requires Good(available, disabled, known, check, local, cloud)
    ensures p in available ==> Good(available - {p}, disabled[p := available[p]], known, check, local, cloud)
    ensures p in disabled ==> Good(available[p := disabled[p]], disabled - {p}, known, check, local, cloud)
  {
    hide IsClean, Rooted, IsMountpath;
  }

  class MountedFS {
    const localBuckets: string
    const cloudBuckets: string
    var checkFsID: bool
    var fsIDs: map<int, string>
    var available: map<string, MountpathInfo>
    var disabled: map<string, MountpathInfo>

    ghost predicate Valid()
      reads this
    {
      Good(available, disabled, fsIDs.Keys, checkFsID, localBuckets, cloudBuckets)
    }

    constructor (localBuckets: string, cloudBuckets: string)
      ensures Valid() && this.localBuckets == localBuckets && this.cloudBuckets == cloudBuckets
      ensures checkFsID && fsIDs == map[] && available == map[] && disabled == map[]
    {
      this.localBuckets, this.cloudBuckets := localBuckets, cloudBuckets;
      checkFsID, fsIDs, available, disabled := true, map[], map[], map[];
    }

    method DisableFsIDCheck()
      requires Valid()
      modifies this`checkFsID
      ensures Valid() && !checkFsID
    {
      checkFsID := false;
    }

    /** `fsid` is the file system the path is found on, None when it cannot be told. */
    method Add(mpath: string, fsid: Option<int>) returns (ok: bool)
      requires Valid() && IsName(localBuckets) && IsName(cloudBuckets)
      modifies this`available, this`fsIDs
      ensures Valid()
      ensures ok <==>
        && Accepts(mpath, localBuckets) && Accepts(mpath, cloudBuckets) && fsid.Some?
        && Clean(mpath) !in old(available) && (fsid.value in old(fsIDs) ==> !checkFsID)
      ensures ok ==>
        && available == old(available)[Clean(mpath) := MountpathInfo(Clean(mpath), mpath, fsid.value)]
        && fsIDs == old(fsIDs)[fsid.value := mpath]
      ensures !ok ==> available == old(available) && fsIDs == old(fsIDs)
    {
      hide Accepts, Clean, IsName, Good;
      if !Accepts(mpath, localBuckets) || !Accepts(mpath, cloudBuckets) || fsid.None? {
        return false;
      }
      var mp := MountpathInfo(Clean(mpath), mpath, fsid.value);
      if mp.path in available {
        return false;
      }
      if mp.fsid in fsIDs && checkFsID {
        return false;
      }
      CleanTwice(mpath);
      RootedClean(mpath);
      if Rooted(mpath) {
        AcceptedIsMountpath(mpath, localBuckets, cloudBuckets);
      }
      assert fsIDs[mp.fsid := mpath].Keys == fsIDs.Keys + {mp.fsid};
      GoodAdd(available, disabled, fsIDs.Keys, checkFsID, localBuckets, cloudBuckets, mp);
      available := available[mp.path := mp];
      fsIDs := fsIDs[mp.fsid := mpath];
      ok := true;
    }

    method Remove(path: string) returns (ok: bool)
      requires Valid()
      modifies this`available, this`disabled, this`fsIDs
      ensures Valid()
      ensures ok <==> Clean(path) in old(available) || Clean(path) in old(disabled)
      ensures ok ==>
        var mpath := Clean(path);
        if mpath in old(available)
        then available == old(available) - {mpath} && disabled == old(disabled) && fsIDs == old(fsIDs) - {old(available[mpath].fsid)}
        else available == old(available) && disabled == old(disabled) - {mpath} && fsIDs == old(fsIDs) - {old(disabled[mpath].fsid)}
      ensures !ok ==> available == old(available) && disabled == old(disabled) && fsIDs == old(fsIDs)
    {
      hide Clean, Good;
      var mpath := Clean(path);
      GoodRemove(available, disabled, fsIDs.Keys, checkFsID, localBuckets, cloudBuckets, mpath);
      if mpath !in available {
        if mpath !in disabled {
          return false;
        }
        assert (fsIDs - {disabled[mpath].fsid}).Keys == fsIDs.Keys - {disabled[mpath].fsid};
        fsIDs := fsIDs - {disabled[mpath].fsid};
        disabled := disabled - {mpath};
        return true;
      }
      assert (fsIDs - {available[mpath].fsid}).Keys == fsIDs.Keys - {available[mpath].fsid};
      fsIDs := fsIDs - {available[mpath].fsid};
      available := available - {mpath};
      ok := true;
    }

    method Enable(path: string) returns (enabled: bool, found: bool)
      requires Valid()
      modifies this`available, this`disabled
      ensures Valid()
      ensures found <==> Clean(path) in old(available) || Clean(path) in old(disabled)
      ensures enabled <==> Clean(path) !in old(available) && Clean(path) in old(disabled)
      ensures enabled ==> available == old(available)[Clean(path) := old(disabled[Clean(path)])]
                          && disabled == old(disabled) - {Clean(path)}
      ensures !enabled ==> available == old(available) && disabled == old(disabled)
    {
      hide Clean, Good;
      var mpath := Clean(path);
      GoodMove(available, disabled, fsIDs.Keys, checkFsID, localBuckets, cloudBuckets, mpath);
      if mpath in available {
        return false, true;
      }
      if mpath in disabled {
        available := available[mpath := disabled[mpath]];
        disabled := disabled - {mpath};
        return true, true;
      }
      return false, false;
    }

    method Disable(path: string) returns (done: bool, found: bool)
      requires Valid()
      modifies this`available, this`disabled
      ensures Valid()
      ensures found <==> Clean(path) in old(available) || Clean(path) in old(disabled)
      ensures done <==> Clean(path) in old(available)
      ensures done ==> disabled == old(disabled)[Clean(path) := old(available[Clean(path)])]
                       && available == old(available) - {Clean(path)}
      ensures !done ==> available == old(available) && disabled == old(disabled)
    {
      hide Clean, Good;
      var mpath := Clean(path);
      GoodMove(available, disabled, fsIDs.Keys, checkFsID, localBuckets, cloudBuckets, mpath);
      if mpath in available {
        disabled := disabled[mpath := available[mpath]];
        available := available - {mpath};
        return true, true;
      }
      return false, mpath in disabled;
    }

    /** The longest enclosing mountpath, in whatever order the map is traversed. */
    method Path2MpathInfo(path: string) returns (info: Option<MountpathInfo>, rel: string)
      requires Valid()
      ensures
        match Locate(available.Keys, Clean(path))
        case None => info.None?
        case Some(m) => info == Some(available[m]) && rel == Relative(m, Clean(path)).value
    {
      hide Located, Relative, Clean, IsClean, IsMountpath, OneEach;
      var max := 0;
      var targ := Clean(path);
      info, rel := None, "";
      ghost var best: Option<string> := None;
      CleanTwice(path);
      IsCleanClean(path);
      var todo := available.Keys;
      ghost var tried: set<string> := {};
      LocatedNowhere(targ);
      while todo != {}
        invariant todo <= available.Keys && tried + todo == available.Keys
        invariant Located(tried, targ, best)
        invariant match best case None => info.None? && max == 0
                  case Some(m) => m in available && info == Some(available[m]) && max == |m| && Relative(m, targ) == Some(rel)
        decreases |todo|
      {
        var mpath :| mpath in todo;
        var r, ok := PathPrefixMatch(mpath, targ);
        LocatedStep(tried, targ, best, mpath);
        CleanNonEmpty(mpath);
        tried, todo := tried + {mpath}, todo - {mpath};
        if ok && |mpath| > max {
          info, max, rel := Some(available[mpath]), |mpath|, r;
          best := Some(mpath);
          if rel == "." {
            DotIsWhole(mpath, path);
            WholeIsLongest(available.Keys, targ);
            LocatedUnique(available.Keys, targ, best, Locate(available.Keys, targ));
            return;
          }
        }
      }
      assert tried == available.Keys;
      LocatedUnique(available.Keys, targ, best, Locate(available.Keys, targ));
    }

    method FQN2Info(fqn: string) returns (r: Option<Parsed>)
      requires Valid()
      ensures r == InfoOf(available.Keys, localBuckets, cloudBuckets, fqn)
    {
      hide Relative, Clean, IsClean, IsMountpath, OneEach, SplitN3;
      var info, rel := Path2MpathInfo(fqn);
      if info.None? {
        return None;
      }
      var items := SplitN3(rel);
      if |items| < 3 || items[1] == "" || items[2] == "" {
        return None;
      }
      if items[0] != localBuckets && items[0] != cloudBuckets {
        return None;
      }
      r := Some(Parsed(info.value.path, items[1], items[2], items[0] == localBuckets));
    }
  }

  lemma IsCleanClean(path: string)
    ensures IsClean(Clean(path))
  {
    hide Clean;
    CleanTwice(path);
  }

  lemma LocatedNowhere(targ: string)
    ensures Located({}, targ, None)
  {}

  lemma CleanNonEmpty(path: string)
    requires IsClean(path)
    ensures path != ""
  {}

  /** A clean path is "." relative to itself only. */
  lemma DotIsWhole(mpath: string, path: string)
    requires IsClean(mpath) && Relative(mpath, Clean(path)) == Some(".")
    ensures Clean(path) == mpath
  {
    hide Relative, Clean, Glue, Upto, Render;
    var m := CleanForm(mpath);
    var t := CleanForm(path);
    if Rooted(mpath) == Rooted(path) {
      RelativeParts(Rooted(path), m, t);
      if m != t && m <= t {
        var rest := t[|m|..];
        assert Parts(rest) && rest[0] == t[|m|];
        GlueIsNotDot(rest);
      }
    } else {
      RelativeMixed(Rooted(mpath), m, t);
    }
  }

  lemma GlueIsNotDot(cs: seq<string>)
    requires Parts(cs) && cs != []
    ensures Glue(cs) == "." ==> cs == ["."]
  {
    hide Split, Glue;
    SplitGlue(cs);
    SplitOf(".", "");
  }

  lemma WholeIsLongest(paths: set<string>, targ: string)
    requires targ in paths
    ensures Located(paths, targ, Some(targ))
  {
    forall m | m in paths && Relative(m, targ).Some?
      ensures |m| <= |targ|
    {
      EnclosesByPrefix(m, targ);
    }
  }

  lemma RootedClean(path: string)
    ensures Rooted(Clean(path)) <==> Rooted(path)
  {
    if !Rooted(path) {
      CleanRelative(path);
    }
  }
}
