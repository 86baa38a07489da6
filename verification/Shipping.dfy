// The whole pipeline, from source files to the set of files some image can ship:
// scanning, resolution, desugaring, evaluation and closure composed, and set against
// what the declarations each admissible build keeps reach from the crate roots.
// Which file a declaration names is the gate's own rule on both sides.
module Shipping {
  import opened Text
  import opened Cfg
  import opened AttributeLaws
  import opened Scan
  import opened Items
  import opened ScanLaws
  import opened Exclusion

  // `paths` is the list of sources the gate reads, `files` the text of every file,
  // listed or not, `disk` every file that exists, `roots` the crate roots cargo
  // compiles first.
  datatype Workspace = Workspace(paths: seq<Path>, files: map<Path, SourceFile>, disk: set<Path>, roots: set<Path>)

  function Source(ws: Workspace, p: Path): SourceFile {
    if p in ws.files then ws.files[p] else SourceFile([], [])
  }

  // -------------------------------------------------------------------- resolution

  function Components(s: string): seq<string> {
    if s == "" then [""]
    else if s[0] == '/' then [""] + Components(s[1..])
    else var rest := Components(s[1..]); if rest == [] then [[s[0]]] else [[s[0]] + rest[0]] + rest[1..]
  }

  // A path with its `.`, `..` and empty components worked out.
  function Collapse(p: Path): Path {
    if p == [] then [] else
    var front, last := Collapse(p[..|p| - 1]), p[|p| - 1];
    if last == "" || last == "." then front
    else if last == ".." then Parent(front)
    else front + [last]
  }

  function Spread(dirs: seq<string>): Path {
    if dirs == [] then [] else Components(dirs[0]) + Spread(dirs[1..])
  }

  // The file a `mod` declaration names. A `#[path]` is relative to the declaring
  // file's directory and has one candidate; a plain `mod` has two, under the
  // declaring file's child home; an enclosing inline module adds a directory to both.
  function Target(disk: set<Path>, parent: Path, name: string, rel: Option<string>, dirs: seq<string>): Option<Path> {
    var home := ChildHome(parent) + Spread(dirs);
    if rel.Some? then
      var one := Collapse((if dirs != [] then home else Parent(parent)) + Components(rel.value));
      if one in disk then Some(one) else None
    else
      var flat, nested := Collapse(home + [name + ".rs"]), Collapse(home + [name, "mod.rs"]);
      if flat in disk then Some(flat) else if nested in disk then Some(nested) else None
  }

  function DeclsOf(disk: set<Path>, parent: Path, records: seq<Record>): seq<Declaration> {
    if records == [] then [] else
    var r := records[0];
    var rest := DeclsOf(disk, parent, records[1..]);
    match Target(disk, parent, r.name, r.rel, r.dirs)
    case Some(t) => [Declaration(parent, t, r.cfgs)] + rest
    case None => rest
  }

  function AllDecls(ws: Workspace, paths: seq<Path>): seq<Declaration> {
    if paths == [] then [] else
    DeclsOf(ws.disk, paths[0], Run(FileTokens(Source(ws, paths[0])), START).records) + AllDecls(ws, paths[1..])
  }

  function OwnMap(ws: Workspace, paths: seq<Path>): map<Path, seq<string>> {
    map p | p in paths :: Run(FileTokens(Source(ws, p)), START).own
  }

  // What the scan reads out of the workspace.
  function TreeOf(ws: Workspace): Tree {
    Tree(ws.paths, OwnMap(ws, ws.paths), AllDecls(ws, ws.paths))
  }

  // ----------------------------------------------------------------------- rustc

  ghost predicate Live(c: Config, s: Site) {
    Kept(c, s.guards) && Kept(c, s.cover)
  }

  ghost predicate OwnLive(ws: Workspace, c: Config, f: Path) {
    Kept(c, Source(ws, f).inner)
  }

  ghost predicate Names(ws: Workspace, g: Path, s: Site, f: Path) {
    Target(ws.disk, g, s.name, s.rel, s.dirs) == Some(f)
  }

  // Under build `c`, file `g`, listed or not, declares `f` by a declaration the build
  // keeps.
  ghost predicate Links(ws: Workspace, c: Config, g: Path, f: Path) {
    exists i :: LinksAt(ws, c, g, i, f)
  }

  ghost predicate LinksAt(ws: Workspace, c: Config, g: Path, i: int, f: Path) {
    var sites := FileSites(Source(ws, g));
    0 <= i < |sites| && Names(ws, g, sites[i], f) && Live(c, sites[i])
  }

  ghost predicate Route(ws: Workspace, c: Config, chain: seq<Path>) {
    && chain != [] && chain[0] in ws.roots
    && (forall i :: 0 <= i < |chain| ==> OwnLive(ws, c, chain[i]))
    && (forall i :: 0 < i < |chain| ==> Links(ws, c, chain[i - 1], chain[i]))
  }

  // Build `c` compiles `f`: a route of kept declarations from a root reaches it.
  ghost predicate Compiled(ws: Workspace, c: Config, f: Path) {
    exists chain :: Route(ws, c, chain) && chain[|chain| - 1] == f
  }

  // Every attribute of every file is legally spelled.
  ghost predicate WellSpelled(ws: Workspace) {
    && (forall p :: p in ws.files ==> LegalAttrs(Source(ws, p).inner))
    && forall p :: p in ws.files ==> forall s :: s in FileSites(Source(ws, p)) ==> LegalAttrs(s.guards)
  }

  // ------------------------------------------------------ the tree holds every site

  lemma {:induction false} DeclsOfHas(disk: set<Path>, parent: Path, records: seq<Record>, i: nat, f: Path)
    requires i < |records| && Target(disk, parent, records[i].name, records[i].rel, records[i].dirs) == Some(f)
    ensures Declaration(parent, f, records[i].cfgs) in DeclsOf(disk, parent, records)
  {
    DeclsOfStep(disk, parent, records);
    if i > 0 { DeclsOfHas(disk, parent, records[1..], i - 1, f); }
  }

  lemma DeclsOfStep(disk: set<Path>, parent: Path, records: seq<Record>)
    requires records != []
    ensures forall d :: d in DeclsOf(disk, parent, records[1..]) ==> d in DeclsOf(disk, parent, records)
    ensures var r := records[0];
            var t := Target(disk, parent, r.name, r.rel, r.dirs);
            t.Some? ==> Declaration(parent, t.value, r.cfgs) in DeclsOf(disk, parent, records)
  {}

  lemma {:induction false} AllDeclsHas(ws: Workspace, paths: seq<Path>, g: Path, i: nat, f: Path)
    requires g in paths && i < |FileSites(Source(ws, g))| && Names(ws, g, FileSites(Source(ws, g))[i], f)
    ensures Declaration(g, f, CfgsOf(FileSites(Source(ws, g))[i].guards)) in AllDecls(ws, paths)
  {
    if g == paths[0] {
      ScanIsTheWalk(Source(ws, g));
      DeclsOfHas(ws.disk, g, Records(FileSites(Source(ws, g))), i, f);
    } else {
      AllDeclsHas(ws, paths[1..], g, i, f);
    }
  }

  lemma LinkIsDeclared(ws: Workspace, c: Config, g: Path, f: Path) returns (i: nat, s: Site)
    requires g in ws.paths && Links(ws, c, g, f)
    ensures s in FileSites(Source(ws, g)) && Live(c, s)
    ensures i < |TreeOf(ws).decls| && TreeOf(ws).decls[i] == Declaration(g, f, CfgsOf(s.guards))
  {
    var k :| LinksAt(ws, c, g, k, f);
    s := FileSites(Source(ws, g))[k];
    AllDeclsHas(ws, ws.paths, g, k, f);
    i :| 0 <= i < |TreeOf(ws).decls| && TreeOf(ws).decls[i] == Declaration(g, f, CfgsOf(s.guards));
  }

  lemma OwnShutIsDead(ws: Workspace, shippable: set<string>, c: Config, f: Path)
    requires WellSpelled(ws) && Admissible(c, shippable)
    requires f in OwnShut(TreeOf(ws), ws.paths, shippable)
    ensures !OwnLive(ws, c, f)
  {
    ScanIsTheWalk(Source(ws, f));
    assert Own(TreeOf(ws), f) == CfgsOf(Source(ws, f).inner);
    assert f in ws.files;
    WithheldIsNotKept(Source(ws, f).inner, shippable, c);
  }

  // The closure adds a file only when every file declaring it is excluded.
  lemma LiveDeclarerKeeps(decls: seq<Declaration>, base: set<Path>, out: set<Path>, f: Path)
    requires LeastClosed(decls, base, out) && f !in base
    requires !(Declarers(decls, f) <= out)
    ensures f !in out
  {
    var rest := out - {f};
    assert ClosedIn(decls, rest) by {
      forall t | t in Declared(decls) && Declarers(decls, t) <= rest ensures t in rest {
        assert Declarers(decls, t) <= out;
      }
    }
    assert base <= rest;
  }

  // So one live declarer keeps a file exactly when the file is not in the base,
  // which is fixed before any closure: no declaration of it is withheld, it does
  // not shut itself and no directory above it is shut.
  lemma LiveDeclarerKeepsExactly(ws: Workspace, shippable: set<string>, out: set<Path>, f: Path)
    requires IsExcluded(TreeOf(ws), shippable, out) && !(Declarers(TreeOf(ws).decls, f) <= out)
    ensures f in out <==> f in Base(TreeOf(ws), shippable)
    ensures f in out <==>
              || (f in ws.paths && Withheld(Own(TreeOf(ws), f), shippable))
              || (exists i :: 0 <= i < |TreeOf(ws).decls| && TreeOf(ws).decls[i].target == f
                              && Withheld(TreeOf(ws).decls[i].cfgs, shippable))
              || (f in ws.paths && Under(f, Homes(Named(TreeOf(ws), shippable))))
  {
    if f !in Base(TreeOf(ws), shippable) {
      LiveDeclarerKeeps(TreeOf(ws).decls, Base(TreeOf(ws), shippable), out, f);
    }
  }

  // -------------------------------------------------------------------- soundness

  // No way in from outside: an excluded root shuts itself, every declaration of a
  // file shut by another's cfg is withheld too or stands in an excluded file, and so
  // is every declaration of an excluded file that stands in a file the gate does not
  // read.
  ghost predicate NoWayIn(ws: Workspace, shippable: set<string>, out: set<Path>) {
    var tree := TreeOf(ws);
    && (forall r :: r in ws.roots && r in out ==> r in OwnShut(tree, ws.paths, shippable))
    && (forall i ::
          0 <= i < |tree.decls| && tree.decls[i].target in Base(tree, shippable) &&
          tree.decls[i].target !in OwnShut(tree, ws.paths, shippable) ==>
          Withheld(tree.decls[i].cfgs, shippable) || tree.decls[i].parent in out)
    && NoneUnread(ws, shippable, out)
  }

  ghost predicate NoneUnread(ws: Workspace, shippable: set<string>, out: set<Path>) {
    forall g, s, f ::
      g !in ws.paths && s in FileSites(Source(ws, g)) && Names(ws, g, s, f) &&
      f in out && f !in OwnShut(TreeOf(ws), ws.paths, shippable) ==>
      Withheld(CfgsOf(s.guards), shippable) || g in out
  }

  // One step of a route stays outside the excluded set.
  lemma StepStaysOutside(ws: Workspace, shippable: set<string>, out: set<Path>, c: Config, g: Path, f: Path)
    requires WellSpelled(ws) && Admissible(c, shippable)
    requires IsExcluded(TreeOf(ws), shippable, out) && NoWayIn(ws, shippable, out)
    requires g !in out && Links(ws, c, g, f) && OwnLive(ws, c, f)
    ensures f !in out
  {
    var tree := TreeOf(ws);
    if f in OwnShut(tree, ws.paths, shippable) { OwnShutIsDead(ws, shippable, c, f); }
    if g in ws.paths {
      var i, s := LinkIsDeclared(ws, c, g, f);
      assert g in Declarers(tree.decls, f);
      if Withheld(tree.decls[i].cfgs, shippable) { WithheldIsDead(ws, shippable, c, g, s); }
      if f !in Base(tree, shippable) { LiveDeclarerKeeps(tree.decls, Base(tree, shippable), out, f); }
    } else {
      var s := UnreadLink(ws, c, g, f);
      if Withheld(CfgsOf(s.guards), shippable) { WithheldIsDead(ws, shippable, c, g, s); }
    }
  }

  lemma UnreadLink(ws: Workspace, c: Config, g: Path, f: Path) returns (s: Site)
    requires Links(ws, c, g, f)
    ensures s in FileSites(Source(ws, g)) && Names(ws, g, s, f) && Live(c, s)
  {
    var i :| LinksAt(ws, c, g, i, f);
    s := FileSites(Source(ws, g))[i];
  }

  lemma WithheldIsDead(ws: Workspace, shippable: set<string>, c: Config, g: Path, s: Site)
    requires WellSpelled(ws) && Admissible(c, shippable)
    requires s in FileSites(Source(ws, g)) && Withheld(CfgsOf(s.guards), shippable)
    ensures !Live(c, s)
  {
    assert g in ws.files;
    WithheldIsNotKept(s.guards, shippable, c);
  }

  lemma RouteFront(ws: Workspace, c: Config, chain: seq<Path>)
    requires Route(ws, c, chain) && |chain| > 1
    ensures Route(ws, c, chain[..|chain| - 1])
    ensures Links(ws, c, chain[|chain| - 2], chain[|chain| - 1]) && OwnLive(ws, c, chain[|chain| - 1])
  {
    var front := chain[..|chain| - 1];
    forall i | 0 < i < |front| ensures Links(ws, c, front[i - 1], front[i]) {
      assert Links(ws, c, chain[i - 1], chain[i]);
    }
  }

  lemma {:induction false} RouteStaysOutside(ws: Workspace, shippable: set<string>, out: set<Path>,
                                             c: Config, chain: seq<Path>)
    requires WellSpelled(ws) && Admissible(c, shippable)
    requires IsExcluded(TreeOf(ws), shippable, out) && NoWayIn(ws, shippable, out)
    requires Route(ws, c, chain)
    ensures chain[|chain| - 1] !in out
    decreases |chain|
  {
    var f := chain[|chain| - 1];
    if |chain| == 1 {
      if f in OwnShut(TreeOf(ws), ws.paths, shippable) { OwnShutIsDead(ws, shippable, c, f); }
    } else {
      RouteFront(ws, c, chain);
      RouteStaysOutside(ws, shippable, out, c, chain[..|chain| - 1]);
      StepStaysOutside(ws, shippable, out, c, chain[|chain| - 2], f);
    }
  }

  // End to end: with no way in, no admissible build compiles an excluded file.
  lemma ExcludedIsNeverCompiled(ws: Workspace, shippable: set<string>, out: set<Path>, c: Config, f: Path)
    requires WellSpelled(ws) && Admissible(c, shippable)
    requires IsExcluded(TreeOf(ws), shippable, out) && NoWayIn(ws, shippable, out)
    requires f in out
    ensures !Compiled(ws, c, f)
  {
    forall chain | Route(ws, c, chain) ensures chain[|chain| - 1] != f {
      RouteStaysOutside(ws, shippable, out, c, chain);
    }
  }

  // ----------------------------------------------------------- the exact condition

  // Where a declaration in `g` can lead into the set: to a file of the base or, from a
  // file the gate does not read, to any excluded one.
  ghost predicate Door(ws: Workspace, shippable: set<string>, out: set<Path>, g: Path, f: Path) {
    f in Base(TreeOf(ws), shippable) || (g !in ws.paths && f in out)
  }

  // Under one build: no excluded root keeps itself, and no file the build compiles
  // outside the set reaches, by a kept declaration, through a door to a file that
  // keeps itself.
  ghost predicate NoEntry(ws: Workspace, shippable: set<string>, out: set<Path>, c: Config) {
    && (forall r :: r in ws.roots && r in out ==> !OwnLive(ws, c, r))
    && forall g, f ::
         (g !in out && Compiled(ws, c, g) && Links(ws, c, g, f) && Door(ws, shippable, out, g, f)) ==>
         !OwnLive(ws, c, f)
  }

  lemma {:induction false} NoEntryKeepsOut(ws: Workspace, shippable: set<string>, out: set<Path>,
                                           c: Config, chain: seq<Path>)
    requires IsExcluded(TreeOf(ws), shippable, out) && NoEntry(ws, shippable, out, c)
    requires Route(ws, c, chain)
    ensures chain[|chain| - 1] !in out
    decreases |chain|
  {
    if |chain| > 1 {
      RouteFront(ws, c, chain);
      NoEntryKeepsOut(ws, shippable, out, c, chain[..|chain| - 1]);
      RouteCompiles(ws, c, chain[..|chain| - 1], chain[|chain| - 2]);
      NoEntryStep(ws, shippable, out, c, chain[|chain| - 2], chain[|chain| - 1]);
    }
  }

  lemma NoEntryStep(ws: Workspace, shippable: set<string>, out: set<Path>, c: Config, g: Path, f: Path)
    requires IsExcluded(TreeOf(ws), shippable, out) && NoEntry(ws, shippable, out, c)
    requires g !in out && Compiled(ws, c, g) && Links(ws, c, g, f) && OwnLive(ws, c, f)
    ensures f !in out
  {
    var tree := TreeOf(ws);
    if g in ws.paths {
      var i, s := LinkIsDeclared(ws, c, g, f);
      assert g in Declarers(tree.decls, f);
      if f !in Base(tree, shippable) { LiveDeclarerKeeps(tree.decls, Base(tree, shippable), out, f); }
    }
    assert Door(ws, shippable, out, g, f) ==> !OwnLive(ws, c, f);
  }

  lemma RouteCompiles(ws: Workspace, c: Config, chain: seq<Path>, f: Path)
    requires Route(ws, c, chain) && chain[|chain| - 1] == f
    ensures Compiled(ws, c, f)
  {}

  // For one build, the exclusion is right exactly when there is no entry.
  lemma SoundExactlyWithoutEntry(ws: Workspace, shippable: set<string>, out: set<Path>, c: Config)
    requires IsExcluded(TreeOf(ws), shippable, out)
    ensures (forall f :: f in out ==> !Compiled(ws, c, f)) <==> NoEntry(ws, shippable, out, c)
  {
    if NoEntry(ws, shippable, out, c) {
      forall chain | Route(ws, c, chain) ensures chain[|chain| - 1] !in out {
        NoEntryKeepsOut(ws, shippable, out, c, chain);
      }
    }
    if forall f :: f in out ==> !Compiled(ws, c, f) {
      forall r | r in ws.roots && r in out ensures !OwnLive(ws, c, r) {
        if OwnLive(ws, c, r) { RouteCompiles(ws, c, [r], r); }
      }
      forall g, f | g !in out && Compiled(ws, c, g) && Links(ws, c, g, f) && Door(ws, shippable, out, g, f)
        ensures !OwnLive(ws, c, f)
      {
        if OwnLive(ws, c, f) { CompiledStep(ws, c, g, f); }
      }
    }
  }

  lemma CompiledStep(ws: Workspace, c: Config, g: Path, f: Path)
    requires Compiled(ws, c, g) && Links(ws, c, g, f) && OwnLive(ws, c, f)
    ensures Compiled(ws, c, f)
  {
    var chain :| Route(ws, c, chain) && chain[|chain| - 1] == g;
    var longer := chain + [f];
    forall i | 0 < i < |longer| ensures Links(ws, c, longer[i - 1], longer[i]) {
      if i < |chain| { assert Links(ws, c, chain[i - 1], chain[i]); }
    }
    RouteCompiles(ws, c, longer, f);
  }
}
