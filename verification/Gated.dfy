// Which files a build unit compiles without crossing a test gate, and what a
// change may be excused for. The walk is a worklist over (file, gated?) pairs;
// `resolve` has already turned every declaration into the file it names.
module Gated {
  import opened Text

  type File = string

  // `own`: the declaration carries a cfg that mentions test.
  datatype Decl = Decl(name: string, child: Option<File>, own: bool)

  // The sources of one unit at one revision, and the crate roots among them.
  datatype Unit = Unit(known: map<File, seq<Decl>>, roots: seq<File>)

  // Resolution only ever answers with a file of the unit.
  ghost predicate Resolved(u: Unit) {
    && (forall r :: r in u.roots ==> r in u.known)
    && forall f, d :: f in u.known && d in u.known[f] && d.child.Some? ==> d.child.value in u.known
  }

  // ----------------------------------------------------------------- the graph

  type Node = (File, bool)

  // One edge: `d` in a file visited at gate `g` leads to its child, gated if
  // either is.
  ghost predicate Edge(u: Unit, a: Node, b: Node) {
    a.0 in u.known && exists d :: d in u.known[a.0] && d.child == Some(b.0) && b.1 == (a.1 || d.own)
  }

  ghost predicate Walk(u: Unit, p: seq<Node>) {
    && p != [] && p[0].0 in u.roots && !p[0].1
    && forall i :: 0 < i < |p| ==> Edge(u, p[i - 1], p[i])
  }

  ghost predicate Reached(u: Unit, n: Node) {
    exists p :: Walk(u, p) && p[|p| - 1] == n
  }

  ghost function Nodes(u: Unit): set<Node> {
    set f, g | f in u.known && g in {false, true} :: (f, g)
  }

  lemma RootIsReached(u: Unit, r: File)
    requires r in u.roots
    ensures Reached(u, (r, false))
  {
    assert Walk(u, [(r, false)]) && [(r, false)][|[(r, false)]| - 1] == (r, false);
  }

  lemma EdgeIsReached(u: Unit, a: Node, b: Node)
    requires Reached(u, a) && Edge(u, a, b)
    ensures Reached(u, b)
  {
    var p :| Walk(u, p) && p[|p| - 1] == a;
    var q := p + [b];
    forall i | 0 < i < |q| ensures Edge(u, q[i - 1], q[i]) {
      if i < |p| { assert Edge(u, p[i - 1], p[i]); }
    }
    assert Walk(u, q) && q[|q| - 1] == b;
  }

  // A set that holds the roots and every edge out of it holds everything reached.
  lemma {:induction false} ClosedHoldsWalk(u: Unit, s: set<Node>, p: seq<Node>)
    requires forall r :: r in u.roots ==> (r, false) in s
    requires forall a, b :: a in s && Edge(u, a, b) ==> b in s
    requires Walk(u, p)
    ensures p[|p| - 1] in s
    decreases |p|
  {
    if |p| > 1 {
      var q := p[..|p| - 1];
      assert Walk(u, q) by {
        forall i | 0 < i < |q| ensures Edge(u, q[i - 1], q[i]) { assert Edge(u, p[i - 1], p[i]); }
      }
      ClosedHoldsWalk(u, s, q);
      assert Edge(u, p[|p| - 2], p[|p| - 1]);
    }
  }

  // ------------------------------------------------------- paths through the files

  // A run of declarations from a root: `ds[i]`, in `fs[i]`, names `fs[i + 1]`.
  ghost predicate Path(u: Unit, fs: seq<File>, ds: seq<Decl>) {
    && |fs| == |ds| + 1 && fs[0] in u.roots
    && forall i :: 0 <= i < |ds| ==> fs[i] in u.known && ds[i] in u.known[fs[i]] && ds[i].child == Some(fs[i + 1])
  }

  ghost predicate Crosses(ds: seq<Decl>) {
    exists i :: 0 <= i < |ds| && ds[i].own
  }

  ghost predicate Leads(u: Unit, fs: seq<File>, ds: seq<Decl>, f: File) {
    Path(u, fs, ds) && fs[|fs| - 1] == f
  }

  // In the image: some path from a root crosses no gate.
  ghost predicate Plainly(u: Unit, f: File) {
    exists fs, ds :: Leads(u, fs, ds, f) && !Crosses(ds)
  }

  // Compiled, but only behind a gate: there is a path and every path crosses one.
  ghost predicate OnlyGated(u: Unit, f: File) {
    && (exists fs, ds :: Leads(u, fs, ds, f))
    && (forall fs, ds :: Leads(u, fs, ds, f) ==> Crosses(ds))
  }

  lemma {:induction false} PathIsWalked(u: Unit, fs: seq<File>, ds: seq<Decl>)
    requires Path(u, fs, ds)
    ensures Reached(u, (fs[|fs| - 1], Crosses(ds)))
    decreases |ds|
  {
    if |ds| == 0 {
      RootIsReached(u, fs[0]);
    } else {
      var n := |ds| - 1;
      var d := ds[n];
      PathIsWalked(u, fs[..n + 1], ds[..n]);
      assert Crosses(ds) == (Crosses(ds[..n]) || d.own);
      assert fs[..n + 1][|fs[..n + 1]| - 1] == fs[n];
      assert Edge(u, (fs[n], Crosses(ds[..n])), (fs[n + 1], Crosses(ds)));
      EdgeIsReached(u, (fs[n], Crosses(ds[..n])), (fs[n + 1], Crosses(ds)));
    }
  }

  lemma {:induction false} WalkIsAPath(u: Unit, p: seq<Node>) returns (fs: seq<File>, ds: seq<Decl>)
    requires Walk(u, p)
    ensures Path(u, fs, ds) && (fs[|fs| - 1], Crosses(ds)) == p[|p| - 1]
    decreases |p|
  {
    if |p| == 1 { return [p[0].0], []; }
    var q := p[..|p| - 1];
    assert Walk(u, q) by {
      forall i | 0 < i < |q| ensures Edge(u, q[i - 1], q[i]) { assert Edge(u, p[i - 1], p[i]); }
    }
    var fs0, ds0 := WalkIsAPath(u, q);
    var a, b := p[|p| - 2], p[|p| - 1];
    assert Edge(u, a, b);
    var d :| d in u.known[a.0] && d.child == Some(b.0) && b.1 == (a.1 || d.own);
    fs, ds := fs0 + [b.0], ds0 + [d];
    PathGrows(u, fs0, ds0, b.0, d);
  }

  lemma PathGrows(u: Unit, fs: seq<File>, ds: seq<Decl>, f: File, d: Decl)
    requires Path(u, fs, ds) && fs[|fs| - 1] in u.known && d in u.known[fs[|fs| - 1]] && d.child == Some(f)
    ensures Path(u, fs + [f], ds + [d])
    ensures Crosses(ds + [d]) == (Crosses(ds) || d.own)
  {
    if Crosses(ds) {
      var i :| 0 <= i < |ds| && ds[i].own;
      assert (ds + [d])[i].own;
    }
    if d.own { assert (ds + [d])[|ds|].own; }
  }

  // The product walk is exact: it reaches a file at a gate exactly when some path
  // does.
  lemma WalkIsExact(u: Unit, f: File, g: bool)
    ensures Reached(u, (f, g)) <==> exists fs, ds :: Leads(u, fs, ds, f) && Crosses(ds) == g
  {
    if Reached(u, (f, g)) {
      var p :| Walk(u, p) && p[|p| - 1] == (f, g);
      var fs, ds := WalkIsAPath(u, p);
      assert Leads(u, fs, ds, f);
    }
    forall fs, ds | Leads(u, fs, ds, f) && Crosses(ds) == g ensures Reached(u, (f, g)) {
      PathIsWalked(u, fs, ds);
    }
  }

  lemma HalvesAreExact(u: Unit, f: File)
    ensures Plainly(u, f) <==> Reached(u, (f, false))
    ensures OnlyGated(u, f) <==> Reached(u, (f, true)) && !Reached(u, (f, false))
  {
    WalkIsExact(u, f, false);
    WalkIsExact(u, f, true);
    if OnlyGated(u, f) {
      var fs, ds :| Leads(u, fs, ds, f);
    }
  }

  // -------------------------------------------------------------- declarations

  type Key = (File, string)

  // Seen on some visit, and seen behind a gate on some visit.
  ghost predicate DeclaredIn(u: Unit, k: Key) {
    exists g, d :: Reached(u, (k.0, g)) && k.0 in u.known && d in u.known[k.0] && d.name == k.1
  }

  ghost predicate GatedIn(u: Unit, k: Key) {
    exists g, d :: Reached(u, (k.0, g)) && k.0 in u.known && d in u.known[k.0] && d.name == k.1 && (g || d.own)
  }

  function Keys(rel: File, ds: seq<Decl>): set<Key> {
    set d | d in ds :: (rel, d.name)
  }

  function GatedKeys(rel: File, ds: seq<Decl>, gate: bool): set<Key> {
    set d | d in ds && (gate || d.own) :: (rel, d.name)
  }

  function Children(ds: seq<Decl>, gate: bool): seq<Node> {
    if ds == [] then []
    else Children(ds[..|ds| - 1], gate) +
         (match ds[|ds| - 1].child case Some(c) => [(c, gate || ds[|ds| - 1].own)] case None => [])
  }

  lemma {:induction false} ChildrenAre(u: Unit, ds: seq<Decl>, gate: bool, b: Node)
    ensures b in Children(ds, gate) <==> exists d :: d in ds && d.child == Some(b.0) && b.1 == (gate || d.own)
  {
    if ds != [] {
      var front, last := ds[..|ds| - 1], ds[|ds| - 1];
      ChildrenAre(u, front, gate, b);
      assert forall d :: d in ds <==> d in front || d == last;
    }
  }

  lemma VisitGrows(rel: File, ds: seq<Decl>, i: nat, gate: bool)
    requires i < |ds|
    ensures Keys(rel, ds[..i + 1]) == Keys(rel, ds[..i]) + {(rel, ds[i].name)}
    ensures GatedKeys(rel, ds[..i + 1], gate) ==
            GatedKeys(rel, ds[..i], gate) + (if gate || ds[i].own then {(rel, ds[i].name)} else {})
    ensures Children(ds[..i + 1], gate) ==
            Children(ds[..i], gate) + (match ds[i].child case Some(c) => [(c, gate || ds[i].own)] case None => [])
  {
    assert ds[..i + 1][..i] == ds[..i] && ds[..i + 1] == ds[..i] + [ds[i]];
  }

  // One visit: every declaration is recorded, and its child queued.
  method Visit(rel: File, gate: bool, ds: seq<Decl>, queue0: seq<Node>, declared0: set<Key>, decls0: set<Key>)
    returns (queue: seq<Node>, declared: set<Key>, decls: set<Key>)
    ensures queue == queue0 + Children(ds, gate)
    ensures declared == declared0 + Keys(rel, ds) && decls == decls0 + GatedKeys(rel, ds, gate)
  {
    queue, declared, decls := queue0, declared0, decls0;
    for i := 0 to |ds|
      invariant queue == queue0 + Children(ds[..i], gate)
      invariant declared == declared0 + Keys(rel, ds[..i]) && decls == decls0 + GatedKeys(rel, ds[..i], gate)
    {
      var d := ds[i];
      VisitGrows(rel, ds, i, gate);
      declared := declared + {(rel, d.name)};
      if gate || d.own { decls := decls + {(rel, d.name)}; }
      match d.child {
        case Some(c) => queue := queue + [(c, gate || d.own)];
        case None =>
      }
    }
    assert ds[..|ds|] == ds;
  }
}
