// The analyser as it is called: manifests to features, sources to a tree, tree to
// the production list; and the case its documentation promises otherwise.
module Production {
  import opened Text
  import opened Cfg
  import opened CfgLaws
  import opened Attributes
  import opened AttributeLaws
  import opened Scan
  import opened Items
  import opened Exclusion
  import opened Shipping
  import Features

  lemma {:induction false} AllDeclsConcat(ws: Workspace, a: seq<Path>, b: seq<Path>)
    ensures AllDecls(ws, a + b) == AllDecls(ws, a) + AllDecls(ws, b)
  {
    if a == [] {
      assert a + b == b;
    } else {
      assert (a + b)[1..] == a[1..] + b;
      AllDeclsConcat(ws, a[1..], b);
    }
  }

  lemma AllDeclsGrow(ws: Workspace, i: nat)
    requires i < |ws.paths|
    ensures var p := ws.paths[i];
            AllDecls(ws, ws.paths[..i + 1]) ==
            AllDecls(ws, ws.paths[..i]) + DeclsOf(ws.disk, p, Run(FileTokens(Source(ws, p)), START).records)
  {
    var p := ws.paths[i];
    assert ws.paths[..i + 1] == ws.paths[..i] + [p];
    AllDeclsConcat(ws, ws.paths[..i], [p]);
    var here := DeclsOf(ws.disk, p, Run(FileTokens(Source(ws, p)), START).records);
    assert AllDecls(ws, [p]) == here + AllDecls(ws, []) == here;
  }

  lemma OwnMapGrows(ws: Workspace, i: nat)
    requires i < |ws.paths|
    ensures var p := ws.paths[i];
            OwnMap(ws, ws.paths[..i + 1]) == OwnMap(ws, ws.paths[..i])[p := Run(FileTokens(Source(ws, p)), START).own]
  {
    assert ws.paths[..i + 1] == ws.paths[..i] + [ws.paths[i]];
  }

  method ReadTree(ws: Workspace) returns (tree: Tree)
    ensures tree == TreeOf(ws)
  {
    var own: map<Path, seq<string>>, decls := map[], [];
    for i := 0 to |ws.paths|
      invariant own == OwnMap(ws, ws.paths[..i])
      invariant decls == AllDecls(ws, ws.paths[..i])
    {
      var p := ws.paths[i];
      var mine, records := ScanFile(FileTokens(Source(ws, p)));
      OwnMapGrows(ws, i);
      AllDeclsGrow(ws, i);
      own := own[p := mine];
      decls := decls + DeclsOf(ws.disk, p, records);
    }
    assert ws.paths[..|ws.paths|] == ws.paths;
    tree := Tree(ws.paths, own, decls);
  }

  lemma NothingExcludedIsCompiled(ws: Workspace, shippable: set<string>, out: set<Path>)
    requires WellSpelled(ws) && IsExcluded(TreeOf(ws), shippable, out) && NoWayIn(ws, shippable, out)
    ensures forall c, p :: Admissible(c, shippable) && p in out ==> !Compiled(ws, c, p)
  {
    forall c, p | Admissible(c, shippable) && p in out ensures !Compiled(ws, c, p) {
      ExcludedIsNeverCompiled(ws, shippable, out, c, p);
    }
  }

  // `shippable` is the feature half of the least closed pair.
  ghost predicate Ships(manifests: map<string, Features.Manifest>, shippable: set<string>) {
    exists crates :: Features.Closed(manifests, crates, shippable) && Features.Least(manifests, crates, shippable)
  }

  // `files` leaves out exactly the least closed exclusion, and unless there is a
  // way into it, holds every source some admissible build compiles.
  ghost predicate Publishes(ws: Workspace, shippable: set<string>, out: set<Path>, files: seq<Path>) {
    && IsExcluded(TreeOf(ws), shippable, out) && files == Outside(ws.paths, out)
    && (WellSpelled(ws) && NoWayIn(ws, shippable, out) ==>
          forall c, p :: Admissible(c, shippable) && p in ws.paths && Compiled(ws, c, p) ==> p in files)
  }

  // What the gate publishes: sources outside the list are in no image.
  method Production(ws: Workspace, manifests: map<string, Features.Manifest>)
    returns (r: Option<seq<Path>>)
    ensures exists shippable :: Ships(manifests, shippable) &&
              if AnyCrash(TreeOf(ws), shippable) then r.None?
              else r.Some? && exists out :: Publishes(ws, shippable, out, r.value)
  {
    var features, crates := Features.ShippableFeatures(manifests);
    var tree := ReadTree(ws);
    r := ProductionRust(tree, features);
    assert Ships(manifests, features);
    if r.Some? {
      ghost var out :| IsExcluded(tree, features, out) && r.value == Outside(tree.sources, out);
      forall p ensures p in r.value <==> p in ws.paths && p !in out { OutsideHas(ws.paths, out, p); }
      if WellSpelled(ws) && NoWayIn(ws, features, out) { NothingExcludedIsCompiled(ws, features, out); }
      assert Publishes(ws, features, out, r.value);
    }
  }

  // ------------------------------------------------- a live declarer does not keep a file

  // `#[cfg(test)] mod shared;` beside `#[cfg(not(test))] mod shared;`: rustc
  // compiles shared.rs into every image, by the second declaration.
  ghost const TEST := Flag("", "test", "")
  ghost const NOT_TEST := Combo("", NotOf, "", [Flag("", "test", "")], None, "")
  ghost const LIB: Path := ["src", "lib.rs"]
  ghost const SHARED: Path := ["src", "shared.rs"]
  ghost const TWICE :=
    Workspace([LIB, SHARED],
              map[LIB := SourceFile([], [DeclItem([CfgIs("", TEST)], "shared"),
                                         DeclItem([CfgIs("", NOT_TEST)], "shared")])],
              {LIB, SHARED}, {LIB})

  lemma OneSite(gate: Src, name: string)
    ensures Sites(DeclItem([CfgIs("", gate)], name), [], [], []) == [Site(name, [CfgIs("", gate)], [], None, [])]
  {
    var a := [CfgIs("", gate)];
    assert Body(a[0])[0] == 'c' && "path"[0] == 'p';
    assert PathOf(Body(a[0])) == None;
    assert a[..0] == [] && LastPath(a) == None;
    assert [] + a == a;
  }

  lemma TwiceSites()
    ensures FileSites(Source(TWICE, LIB)) ==
            [Site("shared", [CfgIs("", TEST)], [], None, []), Site("shared", [CfgIs("", NOT_TEST)], [], None, [])]
    ensures Target(TWICE.disk, LIB, "shared", None, []) == Some(SHARED)
  {
    var items := Source(TWICE, LIB).items;
    OneSite(TEST, "shared");
    OneSite(NOT_TEST, "shared");
    assert items[1..] == [items[1]] && items[1..][1..] == [];
    assert SitesAll(items[1..], [], [], []) == Sites(items[1], [], [], []) + SitesAll([], [], [], []);
    assert SitesAll(items, [], [], []) == Sites(items[0], [], [], []) + SitesAll(items[1..], [], [], []);
    assert "shared" + ".rs" == "shared.rs";
    assert ChildHome(LIB) == ["src"] && Spread([]) == [];
    var p: Path := ["src"] + [] + ["shared.rs"];
    assert p == SHARED && p[..1] == ["src"] && p[..1][..0] == [];
    assert Collapse(p[..1]) == Collapse([]) + ["src"];
    assert Collapse(p) == SHARED;
  }

  lemma TestIsWithheld()
    ensures Withheld(CfgsOf([CfgIs("", TEST)]), {})
  {
    assert Legal(TEST);
    StackReads([CfgIs("", TEST)]);
    assert DesugarStack([CfgIs("", TEST)]) == [TEST];
    assert CfgsOf([CfgIs("", TEST)]) == [Render(TEST)];
    ReadsEverySpelling(TEST, {});
  }

  lemma SharedIsShut()
    ensures SHARED in Base(TreeOf(TWICE), {})
  {
    TwiceSites();
    TestIsWithheld();
    AllDeclsHas(TWICE, TWICE.paths, LIB, 0, SHARED);
    assert SHARED in DeclShut(TreeOf(TWICE).decls, {});
  }

  lemma SharedIsCompiled()
    ensures Compiled(TWICE, {}, SHARED)
  {
    TwiceSites();
    assert Sat({}, NOT_TEST) by { assert !Sat({}, NOT_TEST.parts[0]); }
    assert LinksAt(TWICE, {}, LIB, 1, SHARED);
    assert Links(TWICE, {}, LIB, SHARED);
    var chain := [LIB, SHARED];
    assert OwnLive(TWICE, {}, LIB) && OwnLive(TWICE, {}, SHARED);
    RouteCompiles(TWICE, {}, chain, SHARED);
  }

  // One live declarer does not keep a file: the code shuts a target on any withheld
  // declaration, so a file every image compiles is reported as shipped by none.
  lemma LiveDeclarerIsIgnored(out: set<Path>)
    requires IsExcluded(TreeOf(TWICE), {}, out)
    ensures SHARED in out && Admissible({}, {}) && Compiled(TWICE, {}, SHARED)
  {
    SharedIsShut();
    SharedIsCompiled();
  }
}
