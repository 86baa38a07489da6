// A file outside the listing that names an excluded one: the gate does not read it,
// rustc does.
module Unlisted {
  import opened Text
  import opened Cfg
  import opened Attributes
  import opened AttributeLaws
  import opened Scan
  import opened Items
  import opened Exclusion
  import opened Shipping
  import opened Production

  function PathAttr(rel: string): Attr { Plain("path=\"" + rel + "\"") }

  lemma PathIsRead(rel: string)
    requires rel != "" && '"' !in rel
    ensures PathOf(Body(PathAttr(rel))) == Some(rel)
  {
    var body := "path=\"" + rel + "\"";
    var a := "=\"" + rel + "\"";
    var b := "\"" + rel + "\"";
    assert body[..4] == "path" && body[4..] == a && a[1..] == b;
    assert StripLeft(PathBlank, a) == a && StripLeft(PathBlank, b) == b;
    assert b[1..|b| - 1] == rel;
  }

  lemma PathSite(rel: string, name: string)
    requires rel != "" && '"' !in rel
    ensures Sites(DeclItem([PathAttr(rel)], name), [], [], []) == [Site(name, [PathAttr(rel)], [], Some(rel), [])]
  {
    PathIsRead(rel);
    var attrs := [PathAttr(rel)];
    assert attrs[|attrs| - 1] == PathAttr(rel) && [] + attrs == attrs;
  }

  // lib.rs declares `f` under test and names u.rs beside its directory; u.rs names
  // f.rs plainly. The listing holds the two files under src.
  ghost const F: Path := ["src", "f.rs"]
  ghost const U: Path := ["u.rs"]
  ghost const BESIDE :=
    Workspace([LIB, F],
              map[LIB := SourceFile([], [DeclItem([CfgIs("", TEST)], "f"), DeclItem([PathAttr("../u.rs")], "u")]),
                  U := SourceFile([], [DeclItem([PathAttr("src/f.rs")], "f")])],
              {LIB, F, U}, {LIB})

  lemma LibSites()
    ensures FileSites(Source(BESIDE, LIB)) ==
            [Site("f", [CfgIs("", TEST)], [], None, []), Site("u", [PathAttr("../u.rs")], [], Some("../u.rs"), [])]
  {
    var items := Source(BESIDE, LIB).items;
    OneSite(TEST, "f");
    PathSite("../u.rs", "u");
    TwoSites(items);
  }

  lemma TwoSites(items: seq<Item>)
    requires |items| == 2
    ensures SitesAll(items, [], [], []) == Sites(items[0], [], [], []) + Sites(items[1], [], [], [])
  {
    assert items[1..] == [items[1]] && items[1..][1..] == [];
    assert SitesAll(items[1..], [], [], []) == Sites(items[1], [], [], []) + SitesAll([], [], [], []);
  }

  lemma BesideSites()
    ensures FileSites(Source(BESIDE, U)) == [Site("f", [PathAttr("src/f.rs")], [], Some("src/f.rs"), [])]
  {
    assert LIB != U;
    var items := Source(BESIDE, U).items;
    PathSite("src/f.rs", "f");
    assert items[1..] == [];
    assert SitesAll(items, [], [], []) == Sites(items[0], [], [], []) + SitesAll([], [], [], []);
  }

  lemma {:induction false} OneComponent(s: string)
    requires '/' !in s
    ensures Components(s) == [s]
  {
    if s != "" {
      assert s[0] in s;
      OneComponent(s[1..]);
      assert [s[0]] + s[1..] == s;
    }
  }

  lemma {:induction false} TwoComponents(a: string, b: string)
    requires '/' !in a && '/' !in b
    ensures Components(a + "/" + b) == [a, b]
    decreases |a|
  {
    var s := a + "/" + b;
    if a == "" {
      assert s[0] == '/' && s[1..] == b;
      OneComponent(b);
    } else {
      assert a[0] in a && s[1..] == a[1..] + "/" + b;
      TwoComponents(a[1..], b);
      assert [a[0]] + a[1..] == a;
    }
  }

  lemma CollapseStep(p: Path, name: string)
    requires name !in {"", ".", ".."}
    ensures Collapse(p + [name]) == Collapse(p) + [name]
  {
    assert (p + [name])[..|p|] == p;
  }

  lemma CollapseUp(p: Path)
    ensures Collapse(p + [".."]) == Parent(Collapse(p))
  {
    assert (p + [".."])[..|p|] == p;
  }

  lemma ResolvesPlainly()
    ensures Target(BESIDE.disk, LIB, "f", None, []) == Some(F)
  {
    assert "f" + ".rs" == "f.rs" && ChildHome(LIB) == ["src"] && Spread([]) == [];
    CollapseStep([], "src");
    CollapseStep(["src"], "f.rs");
    assert [] + ["src"] == ["src"] && ["src"] + [] == ["src"] && ["src"] + ["f.rs"] == F;
  }

  lemma ResolvesUp()
    ensures Target(BESIDE.disk, LIB, "u", Some("../u.rs"), []) == Some(U)
  {
    assert ".." + "/" + "u.rs" == "../u.rs";
    TwoComponents("..", "u.rs");
    assert Parent(LIB) == ["src"];
    UpAndOver("src", "u.rs");
  }

  lemma UpAndOver(dir: string, name: string)
    requires dir !in {"", ".", ".."} && name !in {"", ".", ".."}
    ensures Collapse([dir] + ["..", name]) == [name]
  {
    UpIsNowhere(dir);
    CollapseStep([dir] + [".."], name);
    assert [dir] + ["..", name] == [dir] + [".."] + [name];
  }

  lemma UpIsNowhere(dir: string)
    requires dir !in {"", ".", ".."}
    ensures Collapse([dir] + [".."]) == []
  {
    CollapseStep([], dir);
    CollapseUp([dir]);
    assert [] + [dir] == [dir];
  }

  lemma ResolvesDown()
    ensures Target(BESIDE.disk, U, "f", Some("src/f.rs"), []) == Some(F)
  {
    assert "src" + "/" + "f.rs" == "src/f.rs";
    TwoComponents("src", "f.rs");
    CollapseStep([], "src");
    CollapseStep(["src"], "f.rs");
    assert Parent(U) == [] && [] + ["src"] == ["src"];
    assert [] + ["src", "f.rs"] == ["src"] + ["f.rs"] == F;
  }

  lemma FIsShut()
    ensures F in Base(TreeOf(BESIDE), {})
  {
    LibSites();
    ResolvesPlainly();
    TestIsWithheld();
    AllDeclsHas(BESIDE, BESIDE.paths, LIB, 0, F);
    assert F in DeclShut(TreeOf(BESIDE).decls, {});
  }

  lemma PlainIsLive(rel: string)
    ensures Kept({}, [PathAttr(rel)])
  {}

  lemma LibNamesU()
    ensures Links(BESIDE, {}, LIB, U)
  {
    LibSites();
    ResolvesUp();
    PlainIsLive("../u.rs");
    assert LinksAt(BESIDE, {}, LIB, 1, U);
  }

  lemma UNamesF()
    ensures Links(BESIDE, {}, U, F)
  {
    BesideSites();
    ResolvesDown();
    PlainIsLive("src/f.rs");
    assert LinksAt(BESIDE, {}, U, 0, F);
  }

  lemma FIsCompiled()
    ensures Compiled(BESIDE, {}, F)
  {
    LibNamesU();
    UNamesF();
    var chain := [LIB, U, F];
    assert F != LIB && F != U;
    assert OwnLive(BESIDE, {}, LIB) && OwnLive(BESIDE, {}, U) && OwnLive(BESIDE, {}, F);
    RouteCompiles(BESIDE, {}, chain, F);
  }

  // The file is excluded, though an admissible build compiles it by a declaration the
  // gate never reads.
  lemma UnreadDeclarerIsMissed(out: set<Path>)
    requires IsExcluded(TreeOf(BESIDE), {}, out)
    ensures F in out && U !in BESIDE.paths && Admissible({}, {}) && Compiled(BESIDE, {}, F)
  {
    FIsShut();
    FIsCompiled();
    assert |U| != |LIB| && |U| != |F|;
  }
}
