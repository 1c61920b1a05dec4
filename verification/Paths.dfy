/**
 Slash-separated paths: splitting, lexical cleaning (as path/filepath does it on
 Unix) and joining. An absolute clean path is the list of its names.
 */
module Paths {
  const SEP: char := '/'

  predicate Flat(s: string) {
    SEP !in s
  }

  /** A path component that cleaning leaves alone. */
  predicate IsName(s: string) {
    s != "" && s != "." && s != ".." && Flat(s)
  }

  predicate Names(cs: seq<string>) {
    forall i :: 0 <= i < |cs| ==> IsName(cs[i])
  }

  /** Components between single separators. */
  predicate Parts(cs: seq<string>) {
    forall i :: 0 <= i < |cs| ==> cs[i] != "" && Flat(cs[i])
  }

  predicate AllFlat(cs: seq<string>) {
    forall i :: 0 <= i < |cs| ==> Flat(cs[i])
  }

  // ---- strings and their components

  /** The position of the first separator, or the length. */
  function Upto(s: string): (k: nat)
    ensures k <= |s| && Flat(s[..k]) && (k < |s| ==> s[k] == SEP)
  {
    if s == "" || s[0] == SEP then 0
    else
      var k := Upto(s[1..]);
      assert s[..k + 1] == [s[0]] + s[1..][..k];
      k + 1
  }

  function Split(s: string): (cs: seq<string>)
    ensures cs != [] && AllFlat(cs)
    decreases |s|
  {
    var k := Upto(s);
    if k == |s| then assert s[..k] == s; [s] else [s[..k]] + Split(s[k + 1..])
  }

  function Glue(cs: seq<string>): string {
    if cs == [] then "" else if |cs| == 1 then cs[0] else cs[0] + [SEP] + Glue(cs[1..])
  }

  lemma UptoUnique(s: string, k: nat)
    requires k <= |s| && Flat(s[..k]) && (k < |s| ==> s[k] == SEP)
    ensures Upto(s) == k
  {
    var u := Upto(s);
    assert Flat(s[..u]);
  }

  /** What stands before the first separator, and what follows it. */
  lemma UptoOf(c: string, rest: string)
    requires Flat(c)
    ensures Upto(c + [SEP] + rest) == |c| && Upto(c) == |c|
    ensures (c + [SEP] + rest)[..|c|] == c && (c + [SEP] + rest)[|c| + 1..] == rest
  {
    var s := c + [SEP] + rest;
    assert s[..|c|] == c && s[|c| + 1..] == rest && c[..|c|] == c;
    UptoUnique(s, |c|);
    UptoUnique(c, |c|);
  }

  lemma SplitOf(c: string, rest: string)
    requires Flat(c)
    ensures Split(c + [SEP] + rest) == [c] + Split(rest) && Split(c) == [c]
  {
    hide Upto, Flat;
    UptoOf(c, rest);
    assert c[..|c|] == c;
  }

  lemma {:induction false} SplitGlue(cs: seq<string>)
    requires cs != [] && AllFlat(cs)
    ensures Split(Glue(cs)) == cs
  {
    hide Split, Flat;
    if |cs| == 1 {
      SplitOf(cs[0], "");
    } else {
      SplitGlue(cs[1..]);
      SplitOf(cs[0], Glue(cs[1..]));
    }
  }

  lemma {:induction false} GlueSplit(s: string)
    ensures Glue(Split(s)) == s
    decreases |s|
  {
    hide Upto, Flat;
    var k := Upto(s);
    if k < |s| {
      GlueSplit(s[k + 1..]);
      var rest := Split(s[k + 1..]);
      var cs := [s[..k]] + rest;
      assert Split(s) == cs && cs[1..] == rest && |cs| > 1;
      assert s == s[..k] + [SEP] + s[k + 1..];
    }
  }

  lemma GlueOne(c: string)
    ensures Glue([c]) == c
  {}

  lemma {:induction false} GlueAppend(a: seq<string>, b: seq<string>)
    requires a != [] && b != []
    ensures Glue(a + b) == Glue(a) + [SEP] + Glue(b)
  {
    if |a| == 1 {
      assert (a + b)[1..] == b;
    } else {
      GlueAppend(a[1..], b);
      assert (a + b)[1..] == a[1..] + b;
    }
  }

  // ---- cleaning

  /** One component on top of the cleaned ones before it. */
  function Push(stack: seq<string>, c: string, rooted: bool): seq<string> {
    if c == "" || c == "." then stack
    else if c == ".." then
      if stack != [] && stack[|stack| - 1] != ".." then stack[..|stack| - 1]
      else if rooted then stack
      else stack + [c]
    else stack + [c]
  }

  function Reduce(cs: seq<string>, rooted: bool): seq<string> {
    if cs == [] then [] else Push(Reduce(cs[..|cs| - 1], rooted), cs[|cs| - 1], rooted)
  }

  function Clean(path: string): string {
    if path == "" then "."
    else
      var rooted := path[0] == SEP;
      var cs := Reduce(Split(path), rooted);
      if rooted then Abs(cs) else if cs == [] then "." else Glue(cs)
  }

  function Abs(cs: seq<string>): string {
    [SEP] + Glue(cs)
  }

  predicate Rooted(path: string) {
    path != "" && path[0] == SEP
  }

  lemma AbsSplit(cs: seq<string>)
    requires AllFlat(cs)
    ensures Split(Abs(cs)) == [""] + if cs == [] then [""] else cs
  {
    if cs == [] {
      SplitGlue(["", ""]);
      assert Glue(["", ""]) == Abs(cs);
    } else {
      SplitGlue([""] + cs);
      assert ([""] + cs)[1..] == cs;
      assert Glue([""] + cs) == Abs(cs);
    }
  }

  lemma NamesFlat(cs: seq<string>)
    requires Names(cs)
    ensures AllFlat(cs)
  {}

  lemma NamesParts(cs: seq<string>)
    requires Names(cs)
    ensures Parts(cs)
  {
    forall i | 0 <= i < |cs|
      ensures cs[i] != "" && Flat(cs[i])
    {
      assert IsName(cs[i]);
    }
  }

  /** Different lists make different absolute paths. */
  lemma AbsInjective(a: seq<string>, b: seq<string>)
    requires Parts(a) && Parts(b)
    ensures Abs(a) == Abs(b) <==> a == b
  {
    AbsSplit(a);
    AbsSplit(b);
    if Abs(a) == Abs(b) {
      var x, y := if a == [] then [""] else a, if b == [] then [""] else b;
      assert x == ([""] + x)[1..] && y == ([""] + y)[1..];
    }
  }

  lemma {:induction false} ReduceNames(cs: seq<string>, rooted: bool)
    requires Names(cs)
    ensures Reduce(cs, rooted) == cs && Reduce([""] + cs, rooted) == cs
  {
    if cs != [] {
      var n := |cs| - 1;
      ReduceNames(cs[..n], rooted);
      assert ([""] + cs)[..n + 1] == [""] + cs[..n];
      assert IsName(cs[n]);
    } else {
      assert [""] + cs == [""] && [""][..0] == [];
    }
  }

  lemma CleanAbs(cs: seq<string>)
    requires Names(cs)
    ensures Clean(Abs(cs)) == Abs(cs)
  {
    NamesFlat(cs);
    AbsSplit(cs);
    ReduceNames(cs, true);
    if cs == [] {
      assert ([""] + [""])[..1] == [""] && [""][..0] == [];
      assert Reduce([""], true) == [] && Reduce([""] + [""], true) == [];
    }
  }

  /** Cleaning an absolute path leaves names only. */
  lemma {:induction false} ReducedNames(cs: seq<string>)
    requires AllFlat(cs)
    ensures Names(Reduce(cs, true))
    ensures forall x | x in Reduce(cs, true) :: x in cs
  {
    if cs != [] {
      var n := |cs| - 1;
      ReducedNames(cs[..n]);
      assert Flat(cs[n]);
    }
  }

  lemma CleanRooted(path: string) returns (cs: seq<string>)
    requires Rooted(path)
    ensures Names(cs) && Clean(path) == Abs(cs)
    ensures forall x | x in cs :: x in Split(path)
  {
    cs := Reduce(Split(path), true);
    ReducedNames(Split(path));
  }

  /** Cleaning a relative path leaves a non-empty relative path. */
  lemma CleanRelative(path: string)
    requires !Rooted(path)
    ensures Clean(path) != "" && !Rooted(Clean(path))
  {
    if path != "" {
      var cs := Reduce(Split(path), false);
      ReducedNonEmpty(Split(path), false);
      if cs != [] {
        assert cs[0] != "" && Flat(cs[0]);
        assert Glue(cs)[0] == cs[0][0];
      }
    }
  }

  lemma {:induction false} ReducedNonEmpty(cs: seq<string>, rooted: bool)
    requires AllFlat(cs)
    ensures forall i :: 0 <= i < |Reduce(cs, rooted)| ==> Reduce(cs, rooted)[i] != "" && Flat(Reduce(cs, rooted)[i])
  {
    if cs != [] {
      ReducedNonEmpty(cs[..|cs| - 1], rooted);
    }
  }

  /** Dots that could not be taken back stand at the front, and there is nothing empty. */
  predicate Settled(cs: seq<string>) {
    && AllFlat(cs)
    && (forall i :: 0 <= i < |cs| ==> cs[i] != "" && cs[i] != ".")
    && (forall i :: 0 < i < |cs| && cs[i] == ".." ==> cs[i - 1] == "..")
  }

  lemma {:induction false} ReducedSettled(cs: seq<string>)
    requires AllFlat(cs)
    ensures Settled(Reduce(cs, false))
  {
    if cs != [] {
      ReducedSettled(cs[..|cs| - 1]);
    }
  }

  lemma {:induction false} ReduceSettled(cs: seq<string>)
    requires Settled(cs)
    ensures Reduce(cs, false) == cs
  {
    if cs != [] {
      var n := |cs| - 1;
      assert Settled(cs[..n]) by {
        forall i | 0 < i < n && cs[..n][i] == ".."
          ensures cs[..n][i - 1] == ".."
        {
          assert cs[i] == "..";
        }
      }
      ReduceSettled(cs[..n]);
      assert cs == cs[..n] + [cs[n]];
    }
  }

  function Render(rooted: bool, cs: seq<string>): string {
    if rooted then Abs(cs) else Glue(cs)
  }

  /** A clean path, absolute or not, is the list of its parts; a dot stands alone or not at all. */
  lemma CleanForm(path: string) returns (cs: seq<string>)
    ensures Parts(cs) && Clean(path) == Render(Rooted(path), cs) && (Rooted(path) || cs != [])
    ensures forall i :: 0 <= i < |cs| && cs[i] == "." ==> !Rooted(path) && |cs| == 1
  {
    hide Split, Glue;
    if Rooted(path) {
      cs := CleanRooted(path);
      NamesParts(cs);
    } else {
      cs := if path == "" then [] else Reduce(Split(path), false);
      if path != "" {
        ReducedSettled(Split(path));
      }
      if cs == [] {
        cs := ["."];
        GlueOne(".");
      }
    }
  }

  lemma CleanTwice(path: string)
    ensures Clean(Clean(path)) == Clean(path)
  {
    hide Split, Glue;
    if Rooted(path) {
      var cs := CleanRooted(path);
      CleanAbs(cs);
    } else {
      CleanDot();
      CleanRelative(path);
      if path != "" && Reduce(Split(path), false) != [] {
        var cs := Reduce(Split(path), false);
        ReducedSettled(Split(path));
        ReduceSettled(cs);
        SplitGlue(cs);
      }
    }
  }

  lemma CleanDot()
    ensures Clean(".") == "."
  {
    SplitOf(".", "");
    assert ["."][..0] == [];
    assert Reduce(["."], false) == [];
  }

  // ---- the rules of cleaning, on paths

  lemma {:induction false} ReduceCut(a: seq<string>, a': seq<string>, b: seq<string>, rooted: bool)
    requires Reduce(a, rooted) == Reduce(a', rooted)
    ensures Reduce(a + b, rooted) == Reduce(a' + b, rooted)
  {
    hide Push, Reduce;
    if b == [] {
      assert a + b == a && a' + b == a';
    } else {
      var n := |b| - 1;
      ReduceCut(a, a', b[..n], rooted);
      ReduceLast(a + b[..n], b[n], rooted);
      ReduceLast(a' + b[..n], b[n], rooted);
      assert a + b == a + b[..n] + [b[n]] && a' + b == a' + b[..n] + [b[n]];
    }
  }

  lemma ReduceLast(a: seq<string>, c: string, rooted: bool)
    ensures Reduce(a + [c], rooted) == Push(Reduce(a, rooted), c, rooted)
  {
    assert (a + [c])[..|a|] == a;
  }

  /** Doubled separators and dots drop out, two dots take back the name before them, and at the root they do nothing. */
  lemma CleanRules(a: string, c: string, b: string)
    requires Rooted(a) && IsName(c)
    ensures Clean(a + [SEP] + ("" + [SEP] + b)) == Clean(a + [SEP] + b)
    ensures Clean(a + [SEP] + ("." + [SEP] + b)) == Clean(a + [SEP] + b)
    ensures Clean(a + [SEP] + (c + [SEP] + (".." + [SEP] + b))) == Clean(a + [SEP] + b)
    ensures Clean([SEP] + [SEP] + (".." + [SEP] + b)) == Clean([SEP] + [SEP] + b)
  {
    hide Split, Reduce, Push;
    var s := Split(a);
    SplitAppend(a, b);
    SplitOf("", b);
    SplitOf(".", b);
    SplitOf("..", b);
    SplitOf(c, ".." + [SEP] + b);
    SplitAppend(a, "" + [SEP] + b);
    SplitAppend(a, "." + [SEP] + b);
    SplitAppend(a, c + [SEP] + (".." + [SEP] + b));
    SplitAppend([SEP], b);
    SplitAppend([SEP], ".." + [SEP] + b);
    DroppedParts(s, c, Split(b));
    RootDots(Split(b));
    SlashAlone();
  }

  lemma SlashAlone()
    ensures Split([SEP]) == ["", ""]
  {
    SplitOf("", "");
    assert "" + [SEP] + "" == [SEP];
  }

  lemma DroppedParts(s: seq<string>, c: string, b: seq<string>)
    requires IsName(c)
    ensures Reduce(s + ([""] + b), true) == Reduce(s + b, true)
    ensures Reduce(s + (["."] + b), true) == Reduce(s + b, true)
    ensures Reduce(s + ([c] + ([".."] + b)), true) == Reduce(s + b, true)
  {
    hide Reduce;
    ReduceLast(s, "", true);
    ReduceLast(s, ".", true);
    ReduceLast(s, c, true);
    ReduceLast(s + [c], "..", true);
    ReduceCut(s + [""], s, b, true);
    ReduceCut(s + ["."], s, b, true);
    assert Push(Push(Reduce(s, true), c, true), "..", true) == Reduce(s, true);
    ReduceCut(s + [c] + [".."], s, b, true);
    assert s + ([""] + b) == s + [""] + b && s + (["."] + b) == s + ["."] + b;
    assert s + ([c] + ([".."] + b)) == s + [c] + [".."] + b;
  }

  lemma RootDots(b: seq<string>)
    ensures Reduce(["", ""] + ([".."] + b), true) == Reduce(["", ""] + b, true)
  {
    hide Reduce;
    RootIsEmpty();
    ReduceLast(["", ""], "..", true);
    ReduceCut(["", ""] + [".."], ["", ""], b, true);
    assert ["", ""] + ([".."] + b) == ["", ""] + [".."] + b;
  }

  lemma RootIsEmpty()
    ensures Reduce(["", ""], true) == []
  {
    assert ["", ""][..1] == [""] && [""][..0] == [];
    assert Reduce([""], true) == [];
  }

  // ---- joining

  function Join(elems: seq<string>): string {
    if elems == [] then ""
    else if elems[0] == "" then Join(elems[1..])
    else Clean(Glue(elems))
  }

  lemma GluePair(a: string, b: string)
    ensures Glue([a, b]) == a + [SEP] + b
  {
    assert [a, b][1..] == [b];
  }

  lemma JoinGlued(elems: seq<string>)
    requires elems != [] && elems[0] != ""
    ensures Join(elems) == Clean(Glue(elems))
  {}

  lemma AbsAppend(a: seq<string>, b: seq<string>)
    requires a != [] && b != []
    ensures Abs(a) != "" && Abs(a) + [SEP] + Glue(b) == Abs(a + b)
  {
    hide Glue;
    GlueAppend(a, b);
  }

  lemma Glue3(a: string, b: string, c: string)
    ensures Glue([a, b]) == a + [SEP] + b
    ensures Glue([a, b, c]) == a + [SEP] + (b + [SEP] + c)
  {
    GluePair(a, b);
    GluePair(b, c);
    assert [a, b, c][1..] == [b, c];
  }

  lemma SplitAppend(a: string, b: string)
    ensures Split(a + [SEP] + b) == Split(a) + Split(b)
  {
    hide Split, Glue;
    GlueSplit(a);
    GlueSplit(b);
    GlueAppend(Split(a), Split(b));
    SplitGlue(Split(a) + Split(b));
  }

  lemma JoinName(cs: seq<string>, c: string)
    requires Names(cs) && IsName(c)
    ensures Names(cs + [c]) && Join([Abs(cs), c]) == Abs(cs + [c])
  {
    hide Reduce, Split, Glue;
    Glue3(Abs(cs), c, "");
    if cs == [] {
      assert Glue([]) == "" by { GlueNone(); }
      assert Abs(cs) == [SEP];
      SplitAppend([SEP], c);
      SplitAppend("", "");
      SplitOf("", "");
      SplitOf(c, "");
      assert "" + [SEP] + "" == [SEP];
      assert Split([SEP] + [SEP] + c) == ["", "", c];
      ReduceSlashes(c);
      assert cs + [c] == [c];
    } else {
      GlueAppend(cs, [c]);
      GlueOne(c);
      assert Abs(cs) + [SEP] + c == Abs(cs + [c]);
      CleanAbs(cs + [c]);
    }
  }

  lemma GlueNone()
    ensures Glue([]) == ""
  {}

  lemma ReduceSlashes(c: string)
    requires IsName(c)
    ensures Reduce(["", "", c], true) == [c]
  {
    assert ["", "", c][..2] == ["", ""] && ["", ""][..1] == [""] && [""][..0] == [];
    assert Reduce([""], true) == [] && Reduce(["", ""], true) == [];
  }

  /** A bucket and an object name below a directory. */
  lemma JoinBelow(dir: seq<string>, bucket: string, obj: seq<string>)
    requires Names(dir) && dir != [] && IsName(bucket) && Names(obj) && obj != []
    ensures Names(dir + [bucket] + obj)
    ensures Join([Abs(dir), bucket, Glue(obj)]) == Abs(dir + [bucket] + obj)
  {
    hide IsName, Glue, Clean, Join, Abs;
    var elems := [Abs(dir), bucket, Glue(obj)];
    Glue3(Abs(dir), bucket, Glue(obj));
    GlueOne(bucket);
    GlueAppend([bucket], obj);
    AbsAppend(dir, [bucket] + obj);
    assert dir + ([bucket] + obj) == dir + [bucket] + obj;
    JoinGlued(elems);
    CleanAbs(dir + [bucket] + obj);
  }
}
