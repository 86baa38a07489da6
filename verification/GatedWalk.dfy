// The worklist itself, and the excuses drawn from two revisions.
module GatedWalk {
  import opened Text
  import opened Gated

  ghost function AllKeys(u: Unit, seen: set<Node>): set<Key> {
    set n, d | n in seen && n.0 in u.known && d in u.known[n.0] :: (n.0, d.name)
  }

  ghost function AllGated(u: Unit, seen: set<Node>): set<Key> {
    set n, d | n in seen && n.0 in u.known && d in u.known[n.0] && (n.1 || d.own) :: (n.0, d.name)
  }

  ghost function GatedFiles(seen: set<Node>): set<File> {
    set n | n in seen && n.1 :: n.0
  }

  // What the walk has recorded so far.
  ghost predicate Recorded(u: Unit, seen: set<Node>, out: set<File>, declared: set<Key>, decls: set<Key>) {
    out == GatedFiles(seen) && declared == AllKeys(u, seen) && decls == AllGated(u, seen)
  }

  lemma RecordVisit(u: Unit, seen: set<Node>, out: set<File>, declared: set<Key>, decls: set<Key>, n: Node)
    requires Recorded(u, seen, out, declared, decls) && n.0 in u.known
    ensures Recorded(u, seen + {n}, if n.1 then out + {n.0} else out,
                     declared + Keys(n.0, u.known[n.0]), decls + GatedKeys(n.0, u.known[n.0], n.1))
  {
    var more := seen + {n};
    assert GatedFiles(more) == GatedFiles(seen) + if n.1 then {n.0} else {};
    forall k ensures k in AllKeys(u, more) <==> k in AllKeys(u, seen) + Keys(n.0, u.known[n.0]) {}
    forall k ensures k in AllGated(u, more) <==> k in AllGated(u, seen) + GatedKeys(n.0, u.known[n.0], n.1) {}
  }

  // The frontier: what is still to visit covers every edge out of what was visited.
  ghost predicate Frontier(u: Unit, seen: set<Node>, queue: seq<Node>) {
    && (forall n :: n in seen ==> Reached(u, n) && n in Nodes(u))
    && (forall n :: n in queue ==> Reached(u, n) && n in Nodes(u))
    && (forall r :: r in u.roots ==> (r, false) in seen || (r, false) in queue)
    && (forall a, b :: a in seen && Edge(u, a, b) ==> b in seen || b in queue)
  }

  lemma FrontierStart(u: Unit, queue: seq<Node>)
    requires Resolved(u) && |queue| == |u.roots| && forall i :: 0 <= i < |queue| ==> queue[i] == (u.roots[i], false)
    ensures Frontier(u, {}, queue)
  {
    forall n | n in queue ensures Reached(u, n) && n in Nodes(u) {
      RootIsReached(u, n.0);
    }
    forall r | r in u.roots ensures (r, false) in queue {
      var i :| 0 <= i < |u.roots| && u.roots[i] == r;
      assert queue[i] == (r, false);
    }
  }

  lemma FrontierSkip(u: Unit, seen: set<Node>, queue: seq<Node>)
    requires queue != [] && Frontier(u, seen, queue) && queue[|queue| - 1] in seen
    ensures Frontier(u, seen, queue[..|queue| - 1])
  {
    assert forall n :: n in queue ==> n in queue[..|queue| - 1] || n in seen;
  }

  lemma FrontierVisit(u: Unit, seen: set<Node>, queue: seq<Node>)
    requires Resolved(u) && queue != [] && Frontier(u, seen, queue)
    ensures var n := queue[|queue| - 1];
            n.0 in u.known &&
            Frontier(u, seen + {n}, queue[..|queue| - 1] + Children(u.known[n.0], n.1))
  {
    var n := queue[|queue| - 1];
    var rest := queue[..|queue| - 1];
    assert n in queue && n in Nodes(u);
    var kids := Children(u.known[n.0], n.1);
    forall b ensures b in kids <==> Edge(u, n, b) { ChildrenAre(u, u.known[n.0], n.1, b); }
    forall b | b in kids ensures Reached(u, b) && b in Nodes(u) {
      EdgeIsReached(u, n, b);
    }
    assert forall m :: m in queue ==> m in rest || m == n;
  }

  // Every reached node is seen once the queue is empty.
  lemma FrontierEnd(u: Unit, seen: set<Node>)
    requires Frontier(u, seen, [])
    ensures forall n :: n in seen <==> Reached(u, n)
  {
    forall n | Reached(u, n) ensures n in seen {
      var p :| Walk(u, p) && p[|p| - 1] == n;
      ClosedHoldsWalk(u, seen, p);
    }
  }

  // The four answers, each against what it means.
  ghost predicate IsSplit(u: Unit, plain: set<File>, gated: set<File>, open: set<Key>, shut: set<Key>) {
    && (forall f :: f in plain <==> Plainly(u, f))
    && (forall f :: f in gated <==> OnlyGated(u, f))
    && (forall k :: k in shut <==> GatedIn(u, k))
    && (forall k :: k in open <==> DeclaredIn(u, k) && !GatedIn(u, k))
  }

  lemma KeysAreExact(u: Unit, seen: set<Node>, k: Key)
    requires forall n :: n in seen <==> Reached(u, n)
    ensures k in AllKeys(u, seen) <==> DeclaredIn(u, k)
    ensures k in AllGated(u, seen) <==> GatedIn(u, k)
  {
    if DeclaredIn(u, k) {
      var g, d :| Reached(u, (k.0, g)) && k.0 in u.known && d in u.known[k.0] && d.name == k.1;
      assert (k.0, g) in seen && ((k.0, g).0, d.name) in AllKeys(u, seen);
    }
    if GatedIn(u, k) {
      var g, d :| Reached(u, (k.0, g)) && k.0 in u.known && d in u.known[k.0] && d.name == k.1 && (g || d.own);
      assert (k.0, g) in seen && ((k.0, g).0, d.name) in AllGated(u, seen);
    }
    if k in AllKeys(u, seen) {
      var n, d :| n in seen && n.0 in u.known && d in u.known[n.0] && (n.0, d.name) == k;
      assert n == (k.0, n.1) && Reached(u, (k.0, n.1));
    }
    if k in AllGated(u, seen) {
      var n, d :| n in seen && n.0 in u.known && d in u.known[n.0] && (n.1 || d.own) && (n.0, d.name) == k;
      assert n == (k.0, n.1) && Reached(u, (k.0, n.1));
    }
  }

  lemma SplitIsExact(u: Unit, seen: set<Node>, out: set<File>, declared: set<Key>, decls: set<Key>, plain: set<File>)
    requires Recorded(u, seen, out, declared, decls) && (forall n :: n in seen <==> Reached(u, n))
    requires plain == set n | n in seen && !n.1 :: n.0
    ensures IsSplit(u, plain, out - plain, declared - decls, decls)
  {
    forall f ensures (f in plain <==> Plainly(u, f)) && (f in out - plain <==> OnlyGated(u, f)) {
      HalvesAreExact(u, f);
      assert f in plain <==> (f, false) in seen;
      assert f in out <==> (f, true) in seen;
    }
    forall k ensures (k in decls <==> GatedIn(u, k)) && (k in declared <==> DeclaredIn(u, k)) {
      KeysAreExact(u, seen, k);
    }
  }

  method Split(u: Unit) returns (plain: set<File>, gated: set<File>, open: set<Key>, shut: set<Key>)
    requires Resolved(u)
    ensures IsSplit(u, plain, gated, open, shut)
  {
    var seen: set<Node>, out: set<File>, declared: set<Key>, decls: set<Key> := {}, {}, {}, {};
    var queue := seq(|u.roots|, i requires 0 <= i < |u.roots| => (u.roots[i], false));
    FrontierStart(u, queue);
    while queue != []
      invariant Frontier(u, seen, queue) && Recorded(u, seen, out, declared, decls)
      decreases Nodes(u) - seen, |queue|
    {
      var n := queue[|queue| - 1];
      if n in seen {
        FrontierSkip(u, seen, queue);
        queue := queue[..|queue| - 1];
      } else {
        FrontierVisit(u, seen, queue);
        RecordVisit(u, seen, out, declared, decls, n);
        assert n in Nodes(u) - seen;
        if n.1 { out := out + {n.0}; }
        queue, declared, decls := Visit(n.0, n.1, u.known[n.0], queue[..|queue| - 1], declared, decls);
        seen := seen + {n};
      }
    }
    FrontierEnd(u, seen);
    plain := set n | n in seen && !n.1 :: n.0;
    SplitIsExact(u, seen, out, declared, decls, plain);
    gated, open, shut := out - plain, declared - decls, decls;
  }

  // ----------------------------------------------------------------- two revisions

  // Some path leads to the file, and every path that does, in every unit and
  // revision, crosses a gate: a file whose gate the change took away is not excused.
  ghost predicate Excused(units: seq<Unit>, f: File) {
    && (exists u, fs, ds :: u in units && Leads(u, fs, ds, f))
    && (forall u, fs, ds :: u in units && Leads(u, fs, ds, f) ==> Crosses(ds))
  }

  // Which is: gated on some side, and in the image on none.
  lemma ExcusedBySides(units: seq<Unit>, f: File)
    ensures Excused(units, f) <==>
              (exists u :: u in units && OnlyGated(u, f)) && !exists u :: u in units && Plainly(u, f)
  {
    if Excused(units, f) {
      var u, fs, ds :| u in units && Leads(u, fs, ds, f);
      assert OnlyGated(u, f);
    }
    forall u, fs, ds | u in units && Leads(u, fs, ds, f) && !Crosses(ds) ensures Plainly(u, f) {}
  }

  // Gated on some side, and on every side that declares it.
  ghost predicate ExcusedDecl(units: seq<Unit>, k: Key) {
    (exists u :: u in units && GatedIn(u, k)) && (forall u :: u in units && DeclaredIn(u, k) ==> GatedIn(u, k))
  }

  // The units touched by a change, each at the base and as it is now.
  method Excuses(units: seq<Unit>) returns (excused: set<File>, decls: set<Key>)
    requires forall u :: u in units ==> Resolved(u)
    ensures forall f :: f in excused <==> Excused(units, f)
    ensures forall k :: k in decls <==> ExcusedDecl(units, k)
  {
    var plain: set<File>, gated: set<File>, open: set<Key>, shut: set<Key> := {}, {}, {}, {};
    for i := 0 to |units|
      invariant forall f :: f in plain <==> exists u :: u in units[..i] && Plainly(u, f)
      invariant forall f :: f in gated <==> exists u :: u in units[..i] && OnlyGated(u, f)
      invariant forall k :: k in shut <==> exists u :: u in units[..i] && GatedIn(u, k)
      invariant forall k :: k in open <==> exists u :: u in units[..i] && DeclaredIn(u, k) && !GatedIn(u, k)
    {
      assert units[i] in units;
      var p, g, o, s := Split(units[i]);
      PrefixGrows(units, i);
      plain, gated, open, shut := plain + p, gated + g, open + o, shut + s;
    }
    assert units[..|units|] == units;
    excused, decls := gated - plain, shut - open;
    forall f ensures f in excused <==> Excused(units, f) { ExcusedBySides(units, f); }
  }

  lemma PrefixGrows(units: seq<Unit>, i: nat)
    requires i < |units|
    ensures forall u :: u in units[..i + 1] <==> u in units[..i] || u == units[i]
  {
    assert units[..i + 1] == units[..i] + [units[i]];
  }

  // ----------------------------------------------- a declaration that is live and excused

  // The declaration itself stands in the image.
  ghost predicate LiveIn(u: Unit, k: Key) {
    Plainly(u, k.0) && k.0 in u.known && exists d :: d in u.known[k.0] && d.name == k.1 && !d.own
  }

  // A live declaration counts as gated exactly when its file is also reached
  // through a gate, or the file repeats the name under one.
  lemma LiveCountsAsGatedWhen(u: Unit, k: Key)
    requires LiveIn(u, k)
    ensures GatedIn(u, k) <==>
              (exists fs, ds :: Leads(u, fs, ds, k.0) && Crosses(ds)) ||
              (exists d :: d in u.known[k.0] && d.name == k.1 && d.own)
  {
    HalvesAreExact(u, k.0);
    WalkIsExact(u, k.0, true);
    if exists d :: d in u.known[k.0] && d.name == k.1 && d.own {
      var d :| d in u.known[k.0] && d.name == k.1 && d.own;
      assert Reached(u, (k.0, false));
    }
    if Reached(u, (k.0, true)) {
      var d :| d in u.known[k.0] && d.name == k.1 && !d.own;
    }
  }

  // lib.rs names shared.rs twice, plainly and under a test gate; shared.rs
  // declares `x`, which every image compiles, and the line declaring it is excused.
  ghost const A := Decl("a", Some("shared.rs"), false)
  ghost const B := Decl("b", Some("shared.rs"), true)
  ghost const X := Decl("x", Some("x.rs"), false)
  ghost const BOTH_WAYS := Unit(map["lib.rs" := [A, B], "shared.rs" := [X], "x.rs" := []], ["lib.rs"])

  lemma SharedIsPlain()
    ensures LiveIn(BOTH_WAYS, ("shared.rs", "x")) && Plainly(BOTH_WAYS, "x.rs")
  {
    assert Leads(BOTH_WAYS, ["lib.rs", "shared.rs"], [A], "shared.rs");
    assert !Crosses([A]);
    assert Leads(BOTH_WAYS, ["lib.rs", "shared.rs", "x.rs"], [A, X], "x.rs");
    assert !Crosses([A, X]);
    assert X in BOTH_WAYS.known["shared.rs"];
  }

  lemma SharedDeclarationIsExcused()
    ensures LiveIn(BOTH_WAYS, ("shared.rs", "x")) && ExcusedDecl([BOTH_WAYS], ("shared.rs", "x"))
  {
    SharedIsPlain();
    assert Leads(BOTH_WAYS, ["lib.rs", "shared.rs"], [B], "shared.rs");
    assert [B][0].own && Crosses([B]);
    LiveCountsAsGatedWhen(BOTH_WAYS, ("shared.rs", "x"));
    assert BOTH_WAYS in [BOTH_WAYS];
  }
}
