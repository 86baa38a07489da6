// What the exclusion fixed point is, seen from the other side, and how it moves
// with the set of shippable features.
module ExclusionLaws {
  import opened Text
  import opened CfgLaws
  import opened Attributes
  import opened Exclusion

  // The visiting order decides nothing: there is one least closed set.
  lemma OrderDecidesNothing(tree: Tree, shippable: set<string>, a: set<Path>, b: set<Path>)
    requires IsExcluded(tree, shippable, a) && IsExcluded(tree, shippable, b)
    ensures a == b
  {
    assert a <= b && b <= a;
  }

  // A set of files that keeps itself alive: none is in the base, and each one
  // that is declared at all has a declarer inside the set.
  ghost predicate SelfSustained(tree: Tree, shippable: set<string>, s: set<Path>) {
    && s !! Base(tree, shippable)
    && forall t :: t in s && t in Declared(tree.decls) ==> Declarers(tree.decls, t) * s != {}
  }

  lemma SustainedIsKept(tree: Tree, shippable: set<string>, out: set<Path>, s: set<Path>)
    requires IsExcluded(tree, shippable, out) && SelfSustained(tree, shippable, s)
    ensures out !! s
  {
    var rest := out - s;
    assert ClosedIn(tree.decls, rest) by {
      forall t | t in Declared(tree.decls) && Declarers(tree.decls, t) <= rest ensures t in rest {
        assert Declarers(tree.decls, t) * s == {};
        assert Declarers(tree.decls, t) <= out;
      }
    }
    assert out <= rest;
  }

  ghost function Everywhere(tree: Tree): set<Path> {
    Declared(tree.decls) + set i | 0 <= i < |tree.decls| :: tree.decls[i].parent
  }

  lemma RestSustainsItself(tree: Tree, shippable: set<string>, out: set<Path>, p: Path)
    requires IsExcluded(tree, shippable, out)
    ensures SelfSustained(tree, shippable, Everywhere(tree) + {p} - out)
  {
    var s := Everywhere(tree) + {p} - out;
    forall t | t in s && t in Declared(tree.decls) ensures Declarers(tree.decls, t) * s != {} {
      var parent :| parent in Declarers(tree.decls, t) && parent !in out;
      assert parent in Everywhere(tree);
      assert parent in Declarers(tree.decls, t) * s;
    }
  }

  // Exactly the files outside every self-sustained set are excluded.
  lemma KeptIffSustained(tree: Tree, shippable: set<string>, out: set<Path>, p: Path)
    requires IsExcluded(tree, shippable, out)
    ensures p !in out <==> exists s :: p in s && SelfSustained(tree, shippable, s)
  {
    if p !in out {
      RestSustainsItself(tree, shippable, out, p);
      assert p in Everywhere(tree) + {p} - out;
    }
    forall s | p in s && SelfSustained(tree, shippable, s) ensures p !in out {
      SustainedIsKept(tree, shippable, out, s);
    }
  }

  // A run of declarations that cannot be walked further back to a new file: nobody
  // declares its first file, or a file of the chain itself does.
  ghost predicate IsChain(tree: Tree, chain: seq<Path>) {
    && chain != []
    && (forall i :: 0 < i < |chain| ==> chain[i - 1] in Declarers(tree.decls, chain[i]))
    && (|| chain[0] !in Declared(tree.decls)
        || exists j :: 0 <= j < |chain| && chain[j] in Declarers(tree.decls, chain[0]))
  }

  // The files of the chain sustain each other.
  lemma ChainDeclares(tree: Tree, chain: seq<Path>, i: nat) returns (j: nat)
    requires IsChain(tree, chain) && i < |chain| && chain[i] in Declared(tree.decls)
    ensures j < |chain| && chain[j] in Declarers(tree.decls, chain[i])
  {
    if i > 0 {
      j := i - 1;
    } else {
      j :| 0 <= j < |chain| && chain[j] in Declarers(tree.decls, chain[0]);
    }
  }

  ghost function FilesOf(chain: seq<Path>): set<Path> {
    set p | p in chain
  }

  // A chain that avoids the base is never excluded, at any of its files: neither
  // one that starts at a root nor one that closes into a cycle.
  lemma ChainIsKept(tree: Tree, shippable: set<string>, out: set<Path>, chain: seq<Path>)
    requires IsExcluded(tree, shippable, out) && IsChain(tree, chain)
    requires forall i :: 0 <= i < |chain| ==> chain[i] !in Base(tree, shippable)
    ensures forall i :: 0 <= i < |chain| ==> chain[i] !in out
  {
    var s := FilesOf(chain);
    forall t | t in s && t in Declared(tree.decls) ensures Declarers(tree.decls, t) * s != {} {
      var i :| 0 <= i < |chain| && chain[i] == t;
      var j := ChainDeclares(tree, chain, i);
      assert chain[j] in Declarers(tree.decls, t) * s;
    }
    SustainedIsKept(tree, shippable, out, s);
    forall i | 0 <= i < |chain| ensures chain[i] !in out {
      assert chain[i] in s;
    }
  }

  // Walking back from an excluded file along declarations, to a root or round a
  // cycle, always meets the base.
  lemma BackwardsMeetsBase(tree: Tree, shippable: set<string>, out: set<Path>, chain: seq<Path>)
    requires IsExcluded(tree, shippable, out) && IsChain(tree, chain)
    requires chain[|chain| - 1] in out
    ensures exists i :: 0 <= i < |chain| && chain[i] in Base(tree, shippable)
  {
    if forall i :: 0 <= i < |chain| ==> chain[i] !in Base(tree, shippable) {
      ChainIsKept(tree, shippable, out, chain);
      assert false;
    }
  }

  // A set in which every file has a declarer and one is excluded meets the base.
  lemma MeetsBaseSomewhere(tree: Tree, shippable: set<string>, out: set<Path>, s: set<Path>, f: Path)
    returns (p: Path)
    requires IsExcluded(tree, shippable, out) && f in s && f in out
    requires forall t :: t in s ==> Declarers(tree.decls, t) * s != {}
    ensures p in s && p in Base(tree, shippable)
  {
    if s !! Base(tree, shippable) { SustainedIsKept(tree, shippable, out, s); }
    p :| p in s && p in Base(tree, shippable);
  }

  ghost predicate Back(tree: Tree, back: nat -> Path, i: nat) {
    back(i + 1) in Declarers(tree.decls, back(i))
  }

  ghost function Visited(tree: Tree, back: nat -> Path): set<Path> {
    set p | p in Everywhere(tree) && exists i :: back(i) == p
  }

  lemma VisitedHas(tree: Tree, back: nat -> Path, i: nat)
    requires Back(tree, back, i)
    ensures back(i) in Visited(tree, back)
  {
    assert back(i) in Everywhere(tree);
  }

  lemma VisitedSustains(tree: Tree, back: nat -> Path, t: Path)
    requires (forall i :: Back(tree, back, i)) && t in Visited(tree, back)
    ensures Declarers(tree.decls, t) * Visited(tree, back) != {}
  {
    var i: nat :| back(i) == t;
    assert Back(tree, back, i) && Back(tree, back, i + 1);
    VisitedHas(tree, back, i + 1);
    assert back(i + 1) in Declarers(tree.decls, t) * Visited(tree, back);
  }

  // And so does a walk that never ends, whatever turns it takes: `back(0)` is the
  // excluded file, `back(i + 1)` declares `back(i)`.
  lemma EndlessWalkMeetsBase(tree: Tree, shippable: set<string>, out: set<Path>, back: nat -> Path)
    requires IsExcluded(tree, shippable, out) && back(0) in out
    requires forall i :: Back(tree, back, i)
    ensures exists i :: back(i) in Base(tree, shippable)
  {
    var s := Visited(tree, back);
    assert Back(tree, back, 0);
    VisitedHas(tree, back, 0);
    forall t | t in s ensures Declarers(tree.decls, t) * s != {} { VisitedSustains(tree, back, t); }
    var p := MeetsBaseSomewhere(tree, shippable, out, s, back(0));
    assert exists i: nat :: back(i) == p;
  }

  // ------------------------------------------------------------------ monotonicity

  lemma WithheldShrinks(cfgs: seq<string>, f: set<string>, g: set<string>)
    requires f <= g && Withheld(cfgs, g)
    ensures Withheld(cfgs, f)
  {
    MoreFeaturesSayLess(Gate(cfgs), f, g);
  }

  lemma CrashIsTheSame(cfgs: seq<string>, f: set<string>, g: set<string>)
    requires f <= g
    ensures Crashes(cfgs, f) == Crashes(cfgs, g)
  {
    MoreFeaturesSayLess(Gate(cfgs), f, g);
  }

  lemma NamedShrinks(tree: Tree, f: set<string>, g: set<string>)
    requires f <= g
    ensures Named(tree, g) <= Named(tree, f)
  {
    forall p | p in OwnShut(tree, tree.sources, g) ensures p in Named(tree, f) {
      WithheldShrinks(Own(tree, p), f, g);
    }
    forall p | p in DeclShut(tree.decls, g) ensures p in Named(tree, f) {
      var i :| 0 <= i < |tree.decls| && Withheld(tree.decls[i].cfgs, g) && tree.decls[i].target == p;
      WithheldShrinks(tree.decls[i].cfgs, f, g);
    }
  }

  lemma BaseShrinks(tree: Tree, small: set<Path>, large: set<Path>)
    requires small <= large
    ensures small + Sheltered(tree, Homes(small)) <= large + Sheltered(tree, Homes(large))
  {
    assert Homes(small) <= Homes(large);
    forall p | p in Sheltered(tree, Homes(small)) ensures p in Sheltered(tree, Homes(large)) {
      var k :| 0 <= k < |p| && p[..k] in Homes(small);
      assert p[..k] in Homes(large);
    }
  }

  lemma CrashesTogether(tree: Tree, f: set<string>, g: set<string>)
    requires f <= g
    ensures AnyCrash(tree, f) <==> AnyCrash(tree, g)
  {
    forall i | 0 <= i < |tree.sources|
      ensures Crashes(Own(tree, tree.sources[i]), f) == Crashes(Own(tree, tree.sources[i]), g)
    {
      CrashIsTheSame(Own(tree, tree.sources[i]), f, g);
    }
    forall i | 0 <= i < |tree.decls| ensures Crashes(tree.decls[i].cfgs, f) == Crashes(tree.decls[i].cfgs, g) {
      CrashIsTheSame(tree.decls[i].cfgs, f, g);
    }
  }

  // Enlarging the shippable set never takes a file out of production, whatever
  // the texts of the cfgs are; and both answers are given or neither is.
  lemma MoreFeaturesKeepMore(tree: Tree, f: set<string>, g: set<string>, rF: Option<seq<Path>>, rG: Option<seq<Path>>)
    requires f <= g && Answers(tree, f, rF) && Answers(tree, g, rG)
    ensures rF.Some? <==> rG.Some?
    ensures rF.Some? ==> forall p :: p in rF.value ==> p in rG.value
  {
    CrashesTogether(tree, f, g);
    if rF.Some? {
      var outF :| IsExcluded(tree, f, outF) && rF.value == Outside(tree.sources, outF);
      var outG :| IsExcluded(tree, g, outG) && rG.value == Outside(tree.sources, outG);
      LessIsExcluded(tree, f, g, outF, outG);
      forall p | p in rF.value ensures p in rG.value {
        OutsideHas(tree.sources, outF, p);
        OutsideHas(tree.sources, outG, p);
      }
    }
  }

  lemma LessIsExcluded(tree: Tree, f: set<string>, g: set<string>, outF: set<Path>, outG: set<Path>)
    requires f <= g
    requires IsExcluded(tree, f, outF) && IsExcluded(tree, g, outG)
    ensures outG <= outF
  {
    NamedShrinks(tree, f, g);
    BaseShrinks(tree, Named(tree, g), Named(tree, f));
    assert Base(tree, g) <= outF;
  }
}
