// Which files no buildable image compiles: the files a withheld declaration or
// prologue names, what sits under their directories, and everything declared
// only from inside that set. Only the keys of the source's mapping are kept; its
// values are messages and decide nothing.
module Exclusion {
  import opened Text
  import opened Cfg
  import opened Attributes

  // A resolved path as its components, root first.
  type Path = seq<string>

  datatype Declaration = Declaration(parent: Path, target: Path, cfgs: seq<string>)

  // What one pass over the tree reads: the sources, the cfgs each applies to
  // itself, and every `mod` declaration that resolves to a file.
  datatype Tree = Tree(sources: seq<Path>, own: map<Path, seq<string>>, decls: seq<Declaration>)

  function Own(tree: Tree, p: Path): seq<string> {
    if p in tree.own then tree.own[p] else []
  }

  // ---------------------------------------------------------------- directories

  const ROOT_MODULES: set<string> := {"mod.rs", "lib.rs", "main.rs"}

  function LastDot(name: string): (i: nat)
    ensures i <= |name|
  {
    if name == "" then 0
    else if name[|name| - 1] == '.' then |name| - 1
    else LastDot(name[..|name| - 1])
  }

  // pathlib's stem: the name without its last suffix.
  function Stem(name: string): string {
    var i := LastDot(name);
    if 0 < i < |name| - 1 then name[..i] else name
  }

  function Parent(p: Path): Path {
    if p == [] then [] else p[..|p| - 1]
  }

  // The directory a file's own child modules live in.
  function ChildHome(p: Path): Path {
    if p == [] then [] else
    var name := p[|p| - 1];
    if name in ROOT_MODULES then Parent(p) else Parent(p) + [Stem(name)]
  }

  predicate Under(p: Path, dirs: set<Path>) {
    exists k :: 0 <= k < |p| && p[..k] in dirs
  }

  // A stem loses the last suffix, unless the dot is all there is before or after it.
  lemma StemIs(stem: string, suffix: string)
    requires '.' !in suffix
    ensures Stem(suffix) == suffix
    ensures Stem(stem + "." + suffix) == if stem != "" && suffix != "" then stem else stem + "." + suffix
  {
    LastDotIs(stem, suffix);
    assert (stem + "." + suffix)[..|stem|] == stem;
  }

  lemma {:induction false} LastDotIs(stem: string, suffix: string)
    requires '.' !in suffix
    ensures LastDot(suffix) == 0 && LastDot(stem + "." + suffix) == |stem|
  {
    if suffix != "" {
      var n, s := |suffix| - 1, stem + "." + suffix;
      assert suffix[n] in suffix;
      assert s[..|s| - 1] == stem + "." + suffix[..n];
      LastDotIs(stem, suffix[..n]);
    }
  }

  // Where a module's own children live: beside a crate root or `mod.rs`, else in the
  // directory named after it.
  lemma ChildHomeIs(dir: Path, stem: string)
    requires stem != ""
    ensures ChildHome(dir + [stem + ".rs"]) ==
            if stem == "lib" || stem == "main" || stem == "mod" then dir else dir + [stem]
  {
    var f := stem + ".rs";
    assert f == stem + "." + "rs";
    StemIs(stem, "rs");
    assert (dir + [f])[..|dir|] == dir;
    SameStem(stem, "lib");
    SameStem(stem, "main");
    SameStem(stem, "mod");
    assert "lib" + ".rs" == "lib.rs" && "main" + ".rs" == "main.rs" && "mod" + ".rs" == "mod.rs";
  }

  lemma SameStem(a: string, b: string)
    ensures a + ".rs" == b + ".rs" <==> a == b
  {
    assert (a + ".rs")[..|a|] == a && (b + ".rs")[..|b|] == b;
    assert |a + ".rs"| == |a| + 3 && |b + ".rs"| == |b| + 3;
  }

  // Under a directory: the directory, then something more.
  lemma UnderIs(p: Path, dirs: set<Path>)
    ensures Under(p, dirs) <==> exists d, rest :: d in dirs && rest != [] && p == d + rest
  {
    if Under(p, dirs) {
      var k :| 0 <= k < |p| && p[..k] in dirs;
      assert p == p[..k] + p[k..];
    }
    forall d, rest | d in dirs && rest != [] && p == d + rest ensures Under(p, dirs) {
      assert p[..|d|] == d;
    }
  }

  // -------------------------------------------------------------- specification

  predicate Withheld(cfgs: seq<string>, shippable: set<string>) {
    cfgs != [] && CfgHolds(Gate(cfgs), shippable) == No
  }

  // The evaluation that ends the gate with an IndexError.
  predicate Crashes(cfgs: seq<string>, shippable: set<string>) {
    cfgs != [] && CfgHolds(Gate(cfgs), shippable) == Raises
  }

  ghost predicate AnyCrash(tree: Tree, shippable: set<string>) {
    || (exists i :: 0 <= i < |tree.sources| && Crashes(Own(tree, tree.sources[i]), shippable))
    || (exists i :: 0 <= i < |tree.decls| && Crashes(tree.decls[i].cfgs, shippable))
  }

  ghost function OwnShut(tree: Tree, sources: seq<Path>, shippable: set<string>): set<Path> {
    set p | p in sources && Withheld(Own(tree, p), shippable)
  }

  ghost function DeclShut(decls: seq<Declaration>, shippable: set<string>): set<Path> {
    set i | 0 <= i < |decls| && Withheld(decls[i].cfgs, shippable) :: decls[i].target
  }

  ghost function Homes(files: set<Path>): set<Path> {
    set p | p in files :: ChildHome(p)
  }

  ghost function Named(tree: Tree, shippable: set<string>): set<Path> {
    OwnShut(tree, tree.sources, shippable) + DeclShut(tree.decls, shippable)
  }

  ghost function Sheltered(tree: Tree, dirs: set<Path>): set<Path> {
    set p | p in tree.sources && Under(p, dirs)
  }

  // The files shut before any closure: named ones and those under their homes.
  ghost function Base(tree: Tree, shippable: set<string>): set<Path> {
    Named(tree, shippable) + Sheltered(tree, Homes(Named(tree, shippable)))
  }

  ghost function Declared(decls: seq<Declaration>): set<Path> {
    set i | 0 <= i < |decls| :: decls[i].target
  }

  ghost function Declarers(decls: seq<Declaration>, t: Path): set<Path> {
    set i | 0 <= i < |decls| && decls[i].target == t :: decls[i].parent
  }

  ghost predicate ClosedIn(decls: seq<Declaration>, s: set<Path>) {
    forall t :: t in Declared(decls) && Declarers(decls, t) <= s ==> t in s
  }

  // `out` is the least superset of `base` closed under "all declarers excluded".
  ghost predicate LeastClosed(decls: seq<Declaration>, base: set<Path>, out: set<Path>) {
    && base <= out && ClosedIn(decls, out)
    && forall s :: base <= s && ClosedIn(decls, s) ==> out <= s
  }

  ghost predicate IsExcluded(tree: Tree, shippable: set<string>, out: set<Path>) {
    LeastClosed(tree.decls, Base(tree, shippable), out)
  }

  // ------------------------------------------------------------------ the passes

  method OwnPass(tree: Tree, shippable: set<string>) returns (ok: bool, out: set<Path>, shut: set<Path>)
    ensures ok <==> forall i :: 0 <= i < |tree.sources| ==> !Crashes(Own(tree, tree.sources[i]), shippable)
    ensures ok ==> out == OwnShut(tree, tree.sources, shippable) && shut == Homes(out)
  {
    ok, out, shut := true, {}, {};
    for i := 0 to |tree.sources|
      invariant ok
      invariant forall j :: 0 <= j < i ==> !Crashes(Own(tree, tree.sources[j]), shippable)
      invariant out == OwnShut(tree, tree.sources[..i], shippable) && shut == Homes(out)
    {
      var p := tree.sources[i];
      var crash, withheld := Judge(Own(tree, p), shippable);
      OwnGrow(tree, i, shippable);
      HomesGrow(out, p);
      if crash { return false, out, shut; }
      forall j | 0 <= j < i + 1 ensures !Crashes(Own(tree, tree.sources[j]), shippable) {
        if j == i { assert tree.sources[j] == p; }
      }
      if withheld { out, shut := out + {p}, shut + {ChildHome(p)}; }
    }
    assert tree.sources[..|tree.sources|] == tree.sources;
  }

  method Judge(cfgs: seq<string>, shippable: set<string>) returns (crash: bool, withheld: bool)
    ensures crash == Crashes(cfgs, shippable) && withheld == Withheld(cfgs, shippable)
  {
    if cfgs == [] { return false, false; }
    var v := CfgHolds(Gate(cfgs), shippable);
    return v == Raises, v == No;
  }

  lemma OwnGrow(tree: Tree, i: nat, shippable: set<string>)
    requires i < |tree.sources|
    ensures var p := tree.sources[i];
            OwnShut(tree, tree.sources[..i + 1], shippable) ==
            OwnShut(tree, tree.sources[..i], shippable) + (if Withheld(Own(tree, p), shippable) then {p} else {})
  {
    assert tree.sources[..i + 1] == tree.sources[..i] + [tree.sources[i]];
  }

  lemma HomesGrow(files: set<Path>, p: Path)
    ensures Homes(files + {p}) == Homes(files) + {ChildHome(p)}
  {
    assert ChildHome(p) in Homes(files + {p});
  }

  // `declarers` as the source keeps it: a dictionary of sets.
  ghost predicate Tabulates(declarers: map<Path, set<Path>>, decls: seq<Declaration>) {
    && declarers.Keys == Declared(decls)
    && forall t :: t in declarers ==> declarers[t] == Declarers(decls, t)
  }

  lemma DeclsGrow(decls: seq<Declaration>, i: nat, shippable: set<string>)
    requires i < |decls|
    ensures var d := decls[i];
            && Declared(decls[..i + 1]) == Declared(decls[..i]) + {d.target}
            && DeclShut(decls[..i + 1], shippable) ==
                 DeclShut(decls[..i], shippable) + (if Withheld(d.cfgs, shippable) then {d.target} else {})
            && forall t :: Declarers(decls[..i + 1], t) ==
                             Declarers(decls[..i], t) + (if t == d.target then {d.parent} else {})
  {
    var a, b := decls[..i], decls[..i + 1];
    assert b == a + [decls[i]];
    assert forall j :: 0 <= j < i ==> b[j] == a[j];
    assert b[i] == decls[i];
  }

  method DeclPass(decls: seq<Declaration>, shippable: set<string>, out0: set<Path>, shut0: set<Path>)
    returns (ok: bool, out: set<Path>, shut: set<Path>, declarers: map<Path, set<Path>>)
    requires shut0 == Homes(out0)
    ensures ok <==> forall i :: 0 <= i < |decls| ==> !Crashes(decls[i].cfgs, shippable)
    ensures ok ==> out == out0 + DeclShut(decls, shippable) && shut == Homes(out) && Tabulates(declarers, decls)
  {
    ok, out, shut, declarers := true, out0, shut0, map[];
    for i := 0 to |decls|
      invariant ok && forall j :: 0 <= j < i ==> !Crashes(decls[j].cfgs, shippable)
      invariant out == out0 + DeclShut(decls[..i], shippable) && shut == Homes(out)
      invariant Tabulates(declarers, decls[..i])
    {
      var d := decls[i];
      var crash, withheld := Judge(d.cfgs, shippable);
      DeclsGrow(decls, i, shippable);
      HomesGrow(out, d.target);
      declarers := AddDeclarer(declarers, decls, i);
      if crash { return false, out, shut, declarers; }
      forall j | 0 <= j < i + 1 ensures !Crashes(decls[j].cfgs, shippable) {
        if j == i { assert decls[j] == d; }
      }
      if withheld { out, shut := out + {d.target}, shut + {ChildHome(d.target)}; }
    }
    assert decls[..|decls|] == decls;
  }

  method AddDeclarer(declarers: map<Path, set<Path>>, decls: seq<Declaration>, i: nat)
    returns (out: map<Path, set<Path>>)
    requires i < |decls| && Tabulates(declarers, decls[..i])
    ensures Tabulates(out, decls[..i + 1])
  {
    var d := decls[i];
    DeclsGrow(decls, i, {});
    if d.target !in declarers { NoDeclarers(decls[..i], d.target); }
    var known := if d.target in declarers then declarers[d.target] else {};
    out := declarers[d.target := known + {d.parent}];
  }

  lemma NoDeclarers(decls: seq<Declaration>, t: Path)
    requires t !in Declared(decls)
    ensures Declarers(decls, t) == {}
  {}

  method UnderPass(sources: seq<Path>, shut: set<Path>, out0: set<Path>) returns (out: set<Path>)
    ensures forall p :: p in out <==> p in out0 || (p in sources && Under(p, shut))
  {
    out := out0;
    for i := 0 to |sources|
      invariant forall p :: p in out <==> p in out0 || (p in sources[..i] && Under(p, shut))
    {
      if Under(sources[i], shut) { out := out + {sources[i]}; }
    }
  }

  // --------------------------------------------------------------- the fixed point

  ghost predicate Within(decls: seq<Declaration>, base: set<Path>, out: set<Path>) {
    forall s :: base <= s && ClosedIn(decls, s) ==> out <= s
  }

  // One pass over the declared files, in any order.
  method ClosePass(decls: seq<Declaration>, declarers: map<Path, set<Path>>, base: set<Path>, out0: set<Path>)
    returns (out: set<Path>, changed: bool)
    requires Tabulates(declarers, decls) && Within(decls, base, out0)
    ensures Within(decls, base, out) && out0 <= out
    ensures !changed ==> out == out0 && ClosedIn(decls, out)
    ensures changed ==> declarers.Keys - out < declarers.Keys - out0
  {
    out, changed := out0, false;
    var todo := declarers.Keys;
    while todo != {}
      invariant todo <= declarers.Keys && out0 <= out
      invariant Within(decls, base, out)
      invariant !changed ==> out == out0
      invariant !changed ==> forall t :: t in declarers.Keys - todo && declarers[t] <= out ==> t in out
      invariant changed ==> exists t :: t in declarers && t in out && t !in out0
    {
      var t :| t in todo;
      todo := todo - {t};
      if t !in out && declarers[t] <= out {
        out, changed := out + {t}, true;
      }
    }
    if changed {
      var t :| t in declarers && t in out && t !in out0;
      assert t in declarers.Keys - out0 && t !in declarers.Keys - out;
    }
  }

  method Close(decls: seq<Declaration>, declarers: map<Path, set<Path>>, base: set<Path>) returns (out: set<Path>)
    requires Tabulates(declarers, decls)
    ensures LeastClosed(decls, base, out)
  {
    out := base;
    var changed := true;
    while changed
      invariant base <= out && Within(decls, base, out)
      invariant !changed ==> ClosedIn(decls, out)
      decreases declarers.Keys - out, changed
    {
      out, changed := ClosePass(decls, declarers, base, out);
    }
  }

  method CfgExcluded(tree: Tree, shippable: set<string>) returns (r: Option<set<Path>>)
    ensures r.None? <==> AnyCrash(tree, shippable)
    ensures r.Some? ==> IsExcluded(tree, shippable, r.value)
  {
    var ok, out, shut := OwnPass(tree, shippable);
    if !ok { return None; }
    var declarers;
    ok, out, shut, declarers := DeclPass(tree.decls, shippable, out, shut);
    if !ok { return None; }
    ghost var named := out;
    out := UnderPass(tree.sources, shut, out);
    assert out == Base(tree, shippable);
    out := Close(tree.decls, declarers, out);
    r := Some(out);
  }

  // The sources outside `out`, each as often and in the order it is listed.
  function Outside(sources: seq<Path>, out: set<Path>): seq<Path> {
    if sources == [] then [] else
    var last := sources[|sources| - 1];
    Outside(sources[..|sources| - 1], out) + if last in out then [] else [last]
  }

  lemma {:induction false} OutsideHas(sources: seq<Path>, out: set<Path>, p: Path)
    ensures p in Outside(sources, out) <==> p in sources && p !in out
  {
    if sources != [] {
      assert sources == sources[..|sources| - 1] + [sources[|sources| - 1]];
      OutsideHas(sources[..|sources| - 1], out, p);
    }
  }

  // The places of `sources` that are left, and what is left of them.
  ghost predicate Picks(sources: seq<Path>, out: set<Path>, ix: seq<nat>, left: seq<Path>) {
    && |ix| == |left| && (forall k, l :: 0 <= k < l < |ix| ==> ix[k] < ix[l])
    && (forall k :: 0 <= k < |ix| ==> ix[k] < |sources| && left[k] == sources[ix[k]] && left[k] !in out)
    && (forall i :: 0 <= i < |sources| && sources[i] !in out ==> i in ix)
  }

  // What is left is exactly that: every source outside `out`, as often as it is listed
  // and in its order.
  lemma {:induction false} OutsidePicks(sources: seq<Path>, out: set<Path>) returns (ix: seq<nat>)
    ensures Picks(sources, out, ix, Outside(sources, out))
  {
    ix := [];
    if sources != [] {
      var n := |sources| - 1;
      var front := OutsidePicks(sources[..n], out);
      ix := front + if sources[n] in out then [] else [n];
      forall i | 0 <= i < |sources| && sources[i] !in out ensures i in ix {
        if i < n { assert sources[..n][i] == sources[i]; } else { assert ix[|front|] == n; }
      }
    }
  }

  // What the gate answers: nothing when a gate raises, else every source the least
  // closed exclusion leaves.
  ghost predicate Answers(tree: Tree, shippable: set<string>, r: Option<seq<Path>>) {
    && (r.None? <==> AnyCrash(tree, shippable))
    && (r.Some? ==> exists out :: IsExcluded(tree, shippable, out) && r.value == Outside(tree.sources, out))
  }

  // `production_rust`.
  method ProductionRust(tree: Tree, shippable: set<string>) returns (r: Option<seq<Path>>)
    ensures Answers(tree, shippable, r)
  {
    var excluded := CfgExcluded(tree, shippable);
    if excluded.None? { return None; }
    var files := [];
    for i := 0 to |tree.sources|
      invariant files == Outside(tree.sources[..i], excluded.value)
    {
      assert tree.sources[..i + 1][..i] == tree.sources[..i];
      if tree.sources[i] !in excluded.value { files := files + [tree.sources[i]]; }
    }
    assert tree.sources[..|tree.sources|] == tree.sources;
    r := Some(files);
  }
}
