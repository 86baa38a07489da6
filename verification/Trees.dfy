// What the gate reads out of a workspace, said site by site: the declarations of its
// tree are the `mod` sites that resolve, each once and in the order they are read.
module Trees {
  import opened Text
  import opened AttributeLaws
  import opened Scan
  import opened Items
  import opened ScanLaws
  import opened Exclusion
  import opened Shipping

  // Which file a record names, if any.
  type Rule = Record -> Option<Path>

  function RuleOf(disk: set<Path>, parent: Path): Rule {
    (r: Record) => Target(disk, parent, r.name, r.rel, r.dirs)
  }

  // Record `r` of `parent` gives declaration `d`.
  ghost predicate Gives(rule: Rule, parent: Path, r: Record, d: Declaration) {
    d == Declaration(parent, d.target, r.cfgs) && rule(r) == Some(d.target)
  }

  ghost predicate Rising(ix: seq<nat>) {
    forall k, l :: 0 <= k < l < |ix| ==> ix[k] < ix[l]
  }

  // `ix` lists the records that resolve, and `ds` what they give.
  ghost predicate Lists(rule: Rule, parent: Path, records: seq<Record>, ix: seq<nat>, ds: seq<Declaration>) {
    && |ix| == |ds| && Rising(ix)
    && (forall k :: 0 <= k < |ix| ==> ix[k] < |records| && Gives(rule, parent, records[ix[k]], ds[k]))
    && (forall i :: 0 <= i < |records| && rule(records[i]).Some? ==> i in ix)
  }

  ghost function Shifted(ix: seq<nat>): (s: seq<nat>)
    ensures |s| == |ix| && forall k :: 0 <= k < |ix| ==> s[k] == ix[k] + 1
  {
    seq(|ix|, k requires 0 <= k < |ix| => ix[k] + 1)
  }

  lemma ShiftedHas(ix: seq<nat>, i: nat)
    requires i in ix
    ensures i + 1 in Shifted(ix)
  {
    var k :| 0 <= k < |ix| && ix[k] == i;
    assert Shifted(ix)[k] == i + 1;
  }

  lemma {:induction false} RecordsGive(disk: set<Path>, parent: Path, records: seq<Record>) returns (ix: seq<nat>)
    ensures Lists(RuleOf(disk, parent), parent, records, ix, DeclsOf(disk, parent, records))
  {
    ix := [];
    if records != [] {
      var rest := RecordsGive(disk, parent, records[1..]);
      var t := Target(disk, parent, records[0].name, records[0].rel, records[0].dirs);
      ix := if t.Some? then [0] + Shifted(rest) else Shifted(rest);
      ListsStep(RuleOf(disk, parent), parent, records, rest, DeclsOf(disk, parent, records[1..]), t,
                ix, DeclsOf(disk, parent, records));
    }
  }

  lemma ListsStep(rule: Rule, parent: Path, records: seq<Record>, rest: seq<nat>, more: seq<Declaration>,
                  t: Option<Path>, ix: seq<nat>, ds: seq<Declaration>)
    requires records != [] && rule(records[0]) == t && Lists(rule, parent, records[1..], rest, more)
    requires ix == (if t.Some? then [0] else []) + Shifted(rest)
    requires ds == (if t.Some? then [Declaration(parent, t.value, records[0].cfgs)] else []) + more
    ensures Lists(rule, parent, records, ix, ds)
  {
    forall i | 0 <= i < |records| && rule(records[i]).Some? ensures i in ix {
      ListsHas(rule, parent, records, rest, more, t, ix, i);
    }
    var o := |ix| - |rest|;
    forall k | 0 <= k < |ix| ensures ix[k] < |records| && Gives(rule, parent, records[ix[k]], ds[k]) {
      if k >= o { assert records[1..][rest[k - o]] == records[rest[k - o] + 1]; }
    }
  }

  lemma ListsHas(rule: Rule, parent: Path, records: seq<Record>, rest: seq<nat>, more: seq<Declaration>,
                 t: Option<Path>, ix: seq<nat>, i: nat)
    requires records != [] && rule(records[0]) == t && Lists(rule, parent, records[1..], rest, more)
    requires ix == (if t.Some? then [0] else []) + Shifted(rest)
    requires i < |records| && rule(records[i]).Some?
    ensures i in ix
  {
    if i > 0 {
      assert records[1..][i - 1] == records[i];
      ShiftedHas(rest, i - 1);
    } else {
      assert ix[0] == 0;
    }
  }

  // ------------------------------------------------------------ over the listing

  // Site `s.1` of listed file `s.0`.
  type Spot = (nat, nat)

  ghost predicate Before(a: Spot, b: Spot) { a.0 < b.0 || (a.0 == b.0 && a.1 < b.1) }

  ghost predicate IsSpot(ws: Workspace, paths: seq<Path>, s: Spot) {
    s.0 < |paths| && s.1 < |FileSites(Source(ws, paths[s.0]))|
  }

  ghost predicate SpotGives(ws: Workspace, paths: seq<Path>, s: Spot, d: Declaration) {
    && IsSpot(ws, paths, s)
    && var g, site := paths[s.0], FileSites(Source(ws, paths[s.0]))[s.1];
       d == Declaration(g, d.target, CfgsOf(site.guards)) && Names(ws, g, site, d.target)
  }

  ghost predicate SpotResolves(ws: Workspace, paths: seq<Path>, s: Spot) {
    && IsSpot(ws, paths, s)
    && exists f :: Names(ws, paths[s.0], FileSites(Source(ws, paths[s.0]))[s.1], f)
  }

  ghost function InFirst(ix: seq<nat>): (spots: seq<Spot>)
    ensures |spots| == |ix| && forall k :: 0 <= k < |ix| ==> spots[k] == (0, ix[k])
  {
    seq(|ix|, k requires 0 <= k < |ix| => (0, ix[k]))
  }

  ghost function InLater(spots: seq<Spot>): (s: seq<Spot>)
    ensures |s| == |spots| && forall k :: 0 <= k < |s| ==> s[k] == (spots[k].0 + 1, spots[k].1)
  {
    seq(|spots|, k requires 0 <= k < |spots| => (spots[k].0 + 1, spots[k].1))
  }

  ghost predicate SpotList(ws: Workspace, paths: seq<Path>, spots: seq<Spot>, ds: seq<Declaration>) {
    && |spots| == |ds| && (forall k, l :: 0 <= k < l < |spots| ==> Before(spots[k], spots[l]))
    && (forall k :: 0 <= k < |spots| ==> SpotGives(ws, paths, spots[k], ds[k]))
    && (forall s :: SpotResolves(ws, paths, s) ==> s in spots)
  }

  lemma FirstFile(ws: Workspace, paths: seq<Path>) returns (ix: seq<nat>, ds: seq<Declaration>)
    requires paths != []
    ensures ds == DeclsOf(ws.disk, paths[0], Run(FileTokens(Source(ws, paths[0])), START).records)
    ensures |ix| == |ds| && Rising(ix)
    ensures forall k :: 0 <= k < |ix| ==> SpotGives(ws, paths, (0, ix[k]), ds[k])
    ensures forall i: nat :: SpotResolves(ws, paths, (0, i)) ==> i in ix
  {
    var g := paths[0];
    var sites := FileSites(Source(ws, g));
    ScanIsTheWalk(Source(ws, g));
    ix := RecordsGive(ws.disk, g, Records(sites));
    ds := DeclsOf(ws.disk, g, Records(sites));
    forall i: nat | SpotResolves(ws, paths, (0, i)) ensures i in ix {
      assert RuleOf(ws.disk, g)(Records(sites)[i]).Some?;
    }
    forall k | 0 <= k < |ix| ensures SpotGives(ws, paths, (0, ix[k]), ds[k]) {
      assert Gives(RuleOf(ws.disk, g), g, Records(sites)[ix[k]], ds[k]);
    }
  }

  lemma LaterGives(ws: Workspace, paths: seq<Path>, s: Spot, d: Declaration)
    requires paths != [] && SpotGives(ws, paths[1..], s, d)
    ensures SpotGives(ws, paths, (s.0 + 1, s.1), d)
  {
    assert paths[1..][s.0] == paths[s.0 + 1];
  }

  lemma LaterResolves(ws: Workspace, paths: seq<Path>, s: Spot)
    requires s.0 > 0 && SpotResolves(ws, paths, s)
    ensures SpotResolves(ws, paths[1..], (s.0 - 1, s.1))
  {
    assert paths[1..][s.0 - 1] == paths[s.0];
  }

  lemma SpotListStep(ws: Workspace, paths: seq<Path>, ix: seq<nat>, ds: seq<Declaration>,
                     later: seq<Spot>, more: seq<Declaration>)
    requires paths != [] && |ix| == |ds| && Rising(ix)
    requires forall k :: 0 <= k < |ix| ==> SpotGives(ws, paths, (0, ix[k]), ds[k])
    requires forall i: nat :: SpotResolves(ws, paths, (0, i)) ==> i in ix
    requires SpotList(ws, paths[1..], later, more)
    ensures SpotList(ws, paths, InFirst(ix) + InLater(later), ds + more)
  {
    var spots := InFirst(ix) + InLater(later);
    forall k | 0 <= k < |spots| ensures SpotGives(ws, paths, spots[k], (ds + more)[k]) {
      GivesAt(ws, paths, ix, ds, later, more, k);
    }
    forall s | SpotResolves(ws, paths, s) ensures s in spots {
      if s.0 > 0 { LaterResolves(ws, paths, s); }
      SpotIsThere(ix, later, s);
    }
    SpotsRise(ix, later);
  }

  lemma GivesAt(ws: Workspace, paths: seq<Path>, ix: seq<nat>, ds: seq<Declaration>,
                later: seq<Spot>, more: seq<Declaration>, k: nat)
    requires paths != [] && |ix| == |ds| && |later| == |more| && k < |ix| + |later|
    requires k < |ix| ==> SpotGives(ws, paths, (0, ix[k]), ds[k])
    requires k >= |ix| ==> SpotGives(ws, paths[1..], later[k - |ix|], more[k - |ix|])
    ensures SpotGives(ws, paths, (InFirst(ix) + InLater(later))[k], (ds + more)[k])
  {
    if k >= |ix| { LaterGives(ws, paths, later[k - |ix|], more[k - |ix|]); }
  }

  lemma SpotIsThere(ix: seq<nat>, later: seq<Spot>, s: Spot)
    requires if s.0 == 0 then s.1 in ix else (s.0 - 1, s.1) in later
    ensures s in InFirst(ix) + InLater(later)
  {
    var spots := InFirst(ix) + InLater(later);
    if s.0 == 0 {
      var k :| 0 <= k < |ix| && ix[k] == s.1;
      assert spots[k] == s;
    } else {
      var k :| 0 <= k < |later| && later[k] == (s.0 - 1, s.1);
      assert spots[|ix| + k] == s;
    }
  }

  lemma SpotsRise(ix: seq<nat>, later: seq<Spot>)
    requires Rising(ix) && forall k, l :: 0 <= k < l < |later| ==> Before(later[k], later[l])
    ensures var spots := InFirst(ix) + InLater(later);
            forall k, l :: 0 <= k < l < |spots| ==> Before(spots[k], spots[l])
  {
    var spots := InFirst(ix) + InLater(later);
    forall k, l | 0 <= k < l < |spots| ensures Before(spots[k], spots[l]) {
      if k >= |ix| { assert Before(later[k - |ix|], later[l - |ix|]); }
    }
  }

  lemma {:induction false} SitesGive(ws: Workspace, paths: seq<Path>) returns (spots: seq<Spot>)
    ensures SpotList(ws, paths, spots, AllDecls(ws, paths))
  {
    spots := [];
    if paths != [] {
      var ix, ds := FirstFile(ws, paths);
      var later := SitesGive(ws, paths[1..]);
      SpotListStep(ws, paths, ix, ds, later, AllDecls(ws, paths[1..]));
      spots := InFirst(ix) + InLater(later);
    }
  }

  // The tree of a workspace: every listed file with the cfgs it puts on itself, and
  // one declaration per site of a listed file that names a file, in order, and no other.
  lemma TreeIsTheSites(ws: Workspace) returns (spots: seq<Spot>)
    ensures TreeOf(ws).sources == ws.paths
    ensures forall p :: p in ws.paths ==> Own(TreeOf(ws), p) == CfgsOf(Source(ws, p).inner)
    ensures SpotList(ws, ws.paths, spots, TreeOf(ws).decls)
  {
    spots := SitesGive(ws, ws.paths);
    forall p | p in ws.paths ensures Own(TreeOf(ws), p) == CfgsOf(Source(ws, p).inner) {
      ScanIsTheWalk(Source(ws, p));
    }
  }
}
