/**
 Mountpaths and fully qualified names, fs/fqn.go, fs/mountfs.go and cluster/fqn.go.
 What the operating system says of a path (it exists, its file system) is an input.
 */
module Mountpaths {
  import opened Wrappers
  import opened Paths

  /** A path that begins as this does lies below the mountpath. */
  function Dir(mpath: string): string {
    if mpath == [SEP] then mpath else mpath + [SEP]
  }

  /** The path relative to the mountpath, if the mountpath is the path or encloses it. */
  function Relative(mpath: string, targ: string): Option<string> {
    if targ == mpath then Some(".")
    else if Dir(mpath) <= targ then Some(targ[|Dir(mpath)|..])
    else None
  }

  /** Clean, as pathPrefixMatch demands of both its arguments. */
  predicate IsClean(path: string) {
    Clean(path) == path
  }

  lemma NotSeparator(cs: seq<string>)
    requires Parts(cs) && cs != []
    ensures Glue(cs) != "" && !Rooted(Glue(cs)) && Glue(cs) != [SEP]
  {
    assert Flat(cs[0]) && cs[0][0] in cs[0];
    assert Glue(cs)[0] == cs[0][0];
  }

  /** In terms of parts: the mountpath's are the first of the path's. */
  lemma RelativeParts(rooted: bool, m: seq<string>, t: seq<string>)
    requires Parts(m) && Parts(t) && (rooted || (m != [] && t != []))
    ensures Relative(Render(rooted, m), Render(rooted, t)) ==
      if m == t then Some(".") else if m <= t then Some(Glue(t[|m|..])) else None
  {
    hide Glue, Split;
    RenderInjective(rooted, m, t);
    GlueNone();
    if m == [] {
      assert t[|m|..] == t;
    } else {
      RenderInjective(true, m, []);
      NotSeparator(m);
      var mpath, targ := Render(rooted, m), Render(rooted, t);
      assert Dir(mpath) == mpath + [SEP];
      if m <= t && m != t {
        GlueAppend(m, t[|m|..]);
        assert m + t[|m|..] == t;
        assert targ == mpath + [SEP] + Glue(t[|m|..]);
      } else if m != t && mpath + [SEP] <= targ {
        BelowMeansPrefix(rooted, m, t);
      }
    }
  }

  lemma RenderInjective(rooted: bool, a: seq<string>, b: seq<string>)
    requires Parts(a) && Parts(b) && (rooted || (a != [] && b != []))
    ensures Render(rooted, a) == Render(rooted, b) <==> a == b
  {
    if rooted {
      AbsInjective(a, b);
    } else {
      SplitGlue(a);
      SplitGlue(b);
    }
  }

  lemma BelowMeansPrefix(rooted: bool, m: seq<string>, t: seq<string>)
    requires Parts(m) && Parts(t) && m != [] && (rooted || t != []) && Render(rooted, m) + [SEP] <= Render(rooted, t)
    ensures m <= t
  {
    hide Split, Glue;
    var mpath, targ := Render(rooted, m), Render(rooted, t);
    var rest := targ[|mpath| + 1..];
    assert targ == mpath + [SEP] + rest;
    SplitAppend(mpath, rest);
    if rooted {
      AbsSplit(m);
      AbsSplit(t);
      var all := if t == [] then [""] else t;
      assert [""] + all == [""] + (m + Split(rest));
      assert ([""] + all)[1..] == all == m + Split(rest);
    } else {
      SplitGlue(m);
      SplitGlue(t);
    }
  }

  /** An absolute and a relative path have nothing to do with each other. */
  lemma RelativeMixed(rm: bool, m: seq<string>, t: seq<string>)
    requires Parts(m) && Parts(t) && (if rm then t != [] else m != [])
    ensures Relative(Render(rm, m), Render(!rm, t)) == None
    ensures Rooted(Render(rm, m)) == rm && Rooted(Render(!rm, t)) == !rm
    ensures Render(rm, m) != "" && Render(!rm, t) != ""
  {
    if rm {
      NotSeparator(t);
      assert Dir(Abs(m))[0] == SEP;
    } else {
      NotSeparator(m);
      assert Dir(Glue(m))[0] == Glue(m)[0];
    }
  }

  lemma RelativeNames(m: seq<string>, t: seq<string>)
    requires Names(m) && Names(t)
    ensures Relative(Abs(m), Abs(t)) ==
      if m == t then Some(".") else if m <= t then Some(Glue(t[|m|..])) else None
  {
    hide Relative, Glue;
    NamesParts(m);
    NamesParts(t);
    RelativeParts(true, m, t);
  }

  // ---- pathPrefixMatch

  /** The position after the component that starts at `from`, and after its separator. */
  function Past(s: string, to: nat): (k: nat)
    requires to <= |s|
    ensures to <= k <= |s|
  {
    if to < |s| then to + 1 else to
  }

  /** The parts of the two paths, and whether the paths are absolute. */
  datatype Pair = Pair(rm: bool, m: seq<string>, rt: bool, t: seq<string>)

  ghost predicate IsPair(p: Pair, mpath: string, targ: string) {
    && Parts(p.m) && Parts(p.t) && (p.rm || p.m != []) && (p.rt || p.t != [])
    && mpath == Render(p.rm, p.m) && targ == Render(p.rt, p.t) && mpath != targ
  }

  /** Between two turns of the loop: `k` parts of both paths are behind, or nothing is (k == -1). */
  ghost predicate Matched(p: Pair, mpath: string, targ: string, b0: nat, t0: nat, k: int) {
    && IsPair(p, mpath, targ) && b0 <= |mpath| && t0 <= |targ|
    && if k < 0 then b0 == t0 == 0 && (p.rm || p.rt)
       else
         && p.rm == p.rt && k <= |p.m| && k <= |p.t| && p.m[..k] == p.t[..k]
         && mpath[b0..] == Glue(p.m[k..]) && targ[t0..] == Glue(p.t[k..])
  }

  /** The first name of a rest of a path, with what follows it. */
  lemma FirstName(cs: seq<string>)
    requires Parts(cs)
    ensures
      var s := Glue(cs);
      && s[..Upto(s)] == (if cs == [] then "" else cs[0])
      && (cs != [] ==> s != "" && s[Past(s, Upto(s))..] == Glue(cs[1..]))
      && (cs == [] ==> s == "")
  {
    if cs != [] {
      UptoOf(cs[0], Glue(cs[1..]));
      if |cs| == 1 {
        assert cs[1..] == [];
      }
    }
  }

  lemma Turn(p: Pair, mpath: string, targ: string, b0: nat, t0: nat, k: int, bi: nat, ti: nat) returns (k': int)
    requires Matched(p, mpath, targ, b0, t0, k)
    requires bi == b0 + Upto(mpath[b0..]) && ti == t0 + Upto(targ[t0..])
    ensures bi <= |mpath| && ti <= |targ|
    ensures mpath[b0..bi] == targ[t0..ti] ==>
      && Matched(p, mpath, targ, Past(mpath, bi), Past(targ, ti), k')
      && Past(mpath, bi) > b0
    ensures mpath[b0..bi] != targ[t0..ti] ==>
      Relative(mpath, targ) == if b0 == |mpath| then Some(targ[t0..]) else None
  {
    hide Glue, Relative;
    k' := if k < 0 then 0 else k + 1;
    if k < 0 {
      assert mpath[0..] == mpath && targ[0..] == targ;
      if p.rm && p.rt {
        assert Upto(mpath) == 0 && Upto(targ) == 0;
        assert mpath[1..] == Glue(p.m) && targ[1..] == Glue(p.t) && p.m[0..] == p.m && p.t[0..] == p.t;
        assert p.m[..0] == [] == p.t[..0];
      } else {
        RelativeMixed(p.rm, p.m, p.t);
        FirstOfRooted(mpath);
        FirstOfRooted(targ);
      }
    } else {
      TurnParts(p, mpath, targ, b0, t0, k, bi, ti);
    }
  }

  lemma FirstOfRooted(path: string)
    requires path != ""
    ensures Rooted(path) <==> Upto(path) == 0
  {}

  lemma TurnParts(p: Pair, mpath: string, targ: string, b0: nat, t0: nat, k: nat, bi: nat, ti: nat)
    requires Matched(p, mpath, targ, b0, t0, k)
    requires bi == b0 + Upto(mpath[b0..]) && ti == t0 + Upto(targ[t0..])
    ensures bi <= |mpath| && ti <= |targ|
    ensures mpath[b0..bi] == targ[t0..ti] ==>
      && Matched(p, mpath, targ, Past(mpath, bi), Past(targ, ti), k + 1)
      && Past(mpath, bi) > b0
    ensures mpath[b0..bi] != targ[t0..ti] ==>
      Relative(mpath, targ) == if b0 == |mpath| then Some(targ[t0..]) else None
  {
    hide Glue, Upto, Relative, Parts, Render, Past;
    FirstOfRest(p.m, k);
    FirstOfRest(p.t, k);
    RestOf(mpath, b0, bi);
    RestOf(targ, t0, ti);
    if k < |p.m| && k < |p.t| && p.m[k] == p.t[k] {
      assert p.m[..k + 1] == p.m[..k] + [p.m[k]] && p.t[..k + 1] == p.t[..k] + [p.t[k]];
    } else {
      DifferHere(p, mpath, targ, k);
    }
  }

  lemma FirstOfRest(cs: seq<string>, k: nat)
    requires Parts(cs) && k <= |cs|
    ensures
      var s := Glue(cs[k..]);
      && s[..Upto(s)] == (if k == |cs| then "" else cs[k])
      && (k < |cs| ==> cs[k] != "" && s != "" && s[Past(s, Upto(s))..] == Glue(cs[k + 1..]))
      && (k == |cs| ==> s == "")
  {
    hide Glue, Upto;
    var rest := cs[k..];
    FirstName(rest);
    if k < |cs| {
      assert rest[0] == cs[k] && rest[1..] == cs[k + 1..];
    }
  }

  lemma DifferHere(p: Pair, mpath: string, targ: string, k: nat)
    requires IsPair(p, mpath, targ) && p.rm == p.rt && k <= |p.m| && k <= |p.t| && p.m[..k] == p.t[..k]
    requires k == |p.m| || k == |p.t| || p.m[k] != p.t[k]
    ensures Relative(mpath, targ) == if k == |p.m| then Some(Glue(p.t[k..])) else None
    ensures !(k == |p.m| == |p.t|)
  {
    hide Glue, Relative, Parts, Render;
    RelativeParts(p.rm, p.m, p.t);
    assert k == |p.m| ==> p.m == p.m[..k];
    assert k == |p.t| ==> p.t == p.t[..k];
  }

  lemma RestOf(s: string, from: nat, to: nat)
    requires from <= |s| && to == from + Upto(s[from..])
    ensures to <= |s| && s[from..to] == s[from..][..Upto(s[from..])]
    ensures s[Past(s, to)..] == s[from..][Past(s[from..], Upto(s[from..]))..]
    ensures s[from..] != "" ==> Past(s, to) > from
  {
    hide Upto;
  }

  /** The scan for the next separator. */
  method Scan(s: string, from: nat) returns (i: nat)
    requires from <= |s|
    ensures i == from + Upto(s[from..]) && i <= |s|
  {
    i := from;
    while i < |s| && s[i] != SEP
      invariant from <= i <= |s| && Flat(s[from..i])
    {
      assert s[from..i + 1] == s[from..i] + [s[i]];
      i := i + 1;
    }
    assert s[from..][..i - from] == s[from..i];
    UptoUnique(s[from..], i - from);
  }

  /** Terminates for all clean paths and tells whether the mountpath is the target or encloses it. */
  method PathPrefixMatch(mpath: string, targ: string) returns (rel: string, matches: bool)
    requires IsClean(mpath) && IsClean(targ)
    ensures Relative(mpath, targ) == if matches then Some(rel) else None
  {
    hide IsClean, Relative, Matched, Parts;
    if |mpath| == |targ| && mpath == targ {
      RelativeSelf(mpath);
      return ".", true;
    }
    ghost var p, k := StartMatch(mpath, targ);
    var b0: nat, t0: nat, bi: nat, ti: nat := 0, 0, 0, 0;
    while true
      invariant b0 == bi <= |mpath| && t0 == ti <= |targ|
      invariant Matched(p, mpath, targ, b0, t0, k)
      decreases |mpath| - b0
    {
      bi := Scan(mpath, bi);
      ti := Scan(targ, ti);
      k := Turn(p, mpath, targ, b0, t0, k, bi, ti);
      if targ[t0..ti] != mpath[b0..bi] {
        break;
      }
      bi, ti := Past(mpath, bi), Past(targ, ti);
      b0, t0 := bi, ti;
    }
    if b0 != |mpath| {
      return "", false;
    }
    return targ[t0..], true;
  }

  lemma RelativeSelf(mpath: string)
    ensures Relative(mpath, mpath) == Some(".")
  {}

  lemma StartMatch(mpath: string, targ: string) returns (p: Pair, k: int)
    requires IsClean(mpath) && IsClean(targ) && mpath != targ
    ensures Matched(p, mpath, targ, 0, 0, k)
  {
    hide Clean, Glue, Render;
    var m := CleanForm(mpath);
    var t := CleanForm(targ);
    p := Pair(Rooted(mpath), m, Rooted(targ), t);
    k := if Rooted(mpath) || Rooted(targ) then -1 else 0;
    assert mpath[0..] == mpath && targ[0..] == targ && m[0..] == m && t[0..] == t && m[..0] == t[..0];
    RenderRelative(m);
    RenderRelative(t);
  }

  lemma RenderRelative(cs: seq<string>)
    ensures Render(false, cs) == Glue(cs)
  {}

  // ---- the longest enclosing mountpath

  /** `mpath` is the longest of `paths` that encloses the target; None says that none does. */
  ghost predicate Located(paths: set<string>, targ: string, mpath: Option<string>) {
    match mpath
    case None => forall m | m in paths :: Relative(m, targ).None?
    case Some(l) =>
      && l in paths && Relative(l, targ).Some?
      && forall m | m in paths && Relative(m, targ).Some? :: |m| <= |l|
  }

  lemma EnclosesByPrefix(m: string, targ: string)
    requires Relative(m, targ).Some?
    ensures m <= targ
  {}

  /** There is only one answer, so the order in which the mountpaths are tried does not matter. */
  lemma LocatedUnique(paths: set<string>, targ: string, a: Option<string>, b: Option<string>)
    requires Located(paths, targ, a) && Located(paths, targ, b)
    ensures a == b
  {
    if a.Some? && b.Some? {
      EnclosesByPrefix(a.value, targ);
      EnclosesByPrefix(b.value, targ);
      assert a.value == targ[..|a.value|] && b.value == targ[..|b.value|];
    }
  }

  lemma {:induction false} LocatedExists(paths: set<string>, targ: string) returns (mpath: Option<string>)
    ensures Located(paths, targ, mpath)
  {
    hide Relative;
    if paths == {} {
      mpath := None;
    } else {
      var m :| m in paths;
      mpath := LocatedExists(paths - {m}, targ);
      LocatedStep(paths - {m}, targ, mpath, m);
      assert paths - {m} + {m} == paths;
      if Relative(m, targ).Some? && (mpath.None? || |m| > |mpath.value|) {
        mpath := Some(m);
      }
    }
  }

  /** One more mountpath: it takes over iff it encloses the target and is longer. */
  lemma LocatedStep(paths: set<string>, targ: string, mpath: Option<string>, m: string)
    requires Located(paths, targ, mpath)
    ensures Located(paths + {m}, targ,
                    if Relative(m, targ).Some? && (mpath.None? || |m| > |mpath.value|) then Some(m) else mpath)
  {
    hide Relative;
  }

  ghost function Locate(paths: set<string>, targ: string): (mpath: Option<string>)
    ensures Located(paths, targ, mpath)
  {
    LocatedExistsFact(paths, targ);
    var mpath: Option<string> :| Located(paths, targ, mpath);
    mpath
  }

  lemma LocatedExistsFact(paths: set<string>, targ: string)
    ensures exists mpath: Option<string> :: Located(paths, targ, mpath)
  {
    var mpath := LocatedExists(paths, targ);
  }
}
