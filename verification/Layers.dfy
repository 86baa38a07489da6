// The crate graph: tiers, the two layering rules, and what a default build links.
module Layers {

  type Crate = string
  type Place = (nat, nat)
  type Edges = set<(Crate, Crate)>

  datatype Ranked =
    | Placed(at: map<Crate, Place>)
    | ListedTwice(crate: Crate)
    | Missing(crates: set<Crate>)
    | Extra(crates: set<Crate>)

  ghost predicate Listed(tiers: seq<seq<Crate>>, c: Crate) {
    exists t, i :: 0 <= t < |tiers| && 0 <= i < |tiers[t]| && tiers[t][i] == c
  }

  ghost predicate ListedOnce(tiers: seq<seq<Crate>>) {
    forall t, i, u, j ::
      0 <= t < |tiers| && 0 <= i < |tiers[t]| && 0 <= u < |tiers| && 0 <= j < |tiers[u]| && tiers[t][i] == tiers[u][j]
      ==> t == u && i == j
  }

  // Every key stands where the map says.
  ghost predicate PlacesIn(tiers: seq<seq<Crate>>, at: map<Crate, Place>) {
    forall c :: c in at ==>
      at[c].0 < |tiers| && at[c].1 < |tiers[at[c].0]| && tiers[at[c].0][at[c].1] == c
  }

  // Position (t, i) comes before (u, j) in reading order.
  ghost predicate Before(t: int, i: int, u: int, j: int) {
    t < u || (t == u && i < j)
  }

  ghost predicate PlacedUpTo(tiers: seq<seq<Crate>>, at: map<Crate, Place>, u: int, j: int) {
    && PlacesIn(tiers, at)
    && (forall c :: c in at ==> Before(at[c].0, at[c].1, u, j))
    && forall t, i :: 0 <= t < |tiers| && 0 <= i < |tiers[t]| && Before(t, i, u, j) ==>
         tiers[t][i] in at && at[tiers[t][i]] == (t, i)
  }

  method Rank(tiers: seq<seq<Crate>>, members: set<Crate>) returns (r: Ranked)
    ensures r.Placed? <==> ListedOnce(tiers) && forall c :: c in members <==> Listed(tiers, c)
    ensures r.Placed? ==> r.at.Keys == members && PlacesIn(tiers, r.at)
  {
    var at: map<Crate, Place> := map[];
    for t := 0 to |tiers|
      invariant PlacedUpTo(tiers, at, t, 0)
    {
      for i := 0 to |tiers[t]|
        invariant PlacedUpTo(tiers, at, t, i)
      {
        var c := tiers[t][i];
        if c in at {
          assert tiers[at[c].0][at[c].1] == tiers[t][i];
          return ListedTwice(c);
        }
        at := at[c := (t, i)];
      }
    }
    AllPlaced(tiers, at);
    if members - at.Keys != {} {
      var c :| c in members - at.Keys;
      return Missing(members - at.Keys);
    }
    if at.Keys - members != {} {
      var c :| c in at.Keys - members;
      return Extra(at.Keys - members);
    }
    r := Placed(at);
  }

  lemma AllPlaced(tiers: seq<seq<Crate>>, at: map<Crate, Place>)
    requires PlacedUpTo(tiers, at, |tiers|, 0)
    ensures ListedOnce(tiers) && forall c :: c in at <==> Listed(tiers, c)
  {
    forall t, i, u, j |
      0 <= t < |tiers| && 0 <= i < |tiers[t]| && 0 <= u < |tiers| && 0 <= j < |tiers[u]| && tiers[t][i] == tiers[u][j]
      ensures t == u && i == j
    {
      assert at[tiers[t][i]] == (t, i) && at[tiers[u][j]] == (u, j);
    }
    forall c ensures c in at <==> Listed(tiers, c) {
      if c in at { assert tiers[at[c].0][at[c].1] == c; }
    }
  }

  // ------------------------------------------------------------------- the two rules

  datatype Layering = Layered | Sideways(edges: Edges) | Upward(edges: Edges)

  // R2 is reported before R1: an applet edge is a same-band edge, and the first
  // message names the rule that was broken.
  function CheckInvariants(edges: Edges, at: map<Crate, Place>, applets: nat): (r: Layering)
    requires forall e :: e in edges ==> e.0 in at && e.1 in at
    ensures r.Layered? <==> forall e :: e in edges ==> at[e.0].0 < at[e.1].0
    ensures r.Sideways? <==> exists e :: e in edges && at[e.0].0 == applets == at[e.1].0
  {
    var sideways := set e | e in edges && at[e.0].0 == applets && at[e.1].0 == applets;
    var upward := set e | e in edges && at[e.0].0 >= at[e.1].0;
    assert forall e :: e in sideways ==> e in upward;
    assert (exists e :: e in sideways) <==> sideways != {};
    assert (exists e :: e in upward) <==> upward != {};
    assert forall e :: e in edges ==> (e in upward <==> !(at[e.0].0 < at[e.1].0));
    assert forall e :: e in sideways <==> e in edges && at[e.0].0 == applets == at[e.1].0;
    if sideways != {} then Sideways(sideways) else if upward != {} then Upward(upward) else Layered
  }

  // A chain of dependencies.
  ghost predicate Chain(edges: Edges, p: seq<Crate>) {
    p != [] && forall i :: 0 < i < |p| ==> (p[i - 1], p[i]) in edges
  }

  // Every edge of a chain goes at least one band down.
  lemma {:induction false} ChainDescends(edges: Edges, at: map<Crate, Place>, applets: nat, p: seq<Crate>)
    requires forall e :: e in edges ==> e.0 in at && e.1 in at
    requires CheckInvariants(edges, at, applets).Layered?
    requires Chain(edges, p) && p[0] in at
    ensures p[|p| - 1] in at && at[p[0]].0 + |p| - 1 <= at[p[|p| - 1]].0
    decreases |p|
  {
    if |p| > 1 {
      var q := p[..|p| - 1];
      assert Chain(edges, q) by {
        forall i | 0 < i < |q| ensures (q[i - 1], q[i]) in edges { assert (p[i - 1], p[i]) in edges; }
      }
      ChainDescends(edges, at, applets, q);
      assert (p[|p| - 2], p[|p| - 1]) in edges;
    }
  }

  // What an accepted workspace promises about every chain, not only every edge:
  // no cycle, fewer edges than there are tiers, and no applet above another.
  lemma AcceptedIsLayered(tiers: seq<seq<Crate>>, edges: Edges, at: map<Crate, Place>, applets: nat, p: seq<Crate>)
    requires PlacesIn(tiers, at) && forall e :: e in edges ==> e.0 in at && e.1 in at
    requires CheckInvariants(edges, at, applets).Layered?
    requires Chain(edges, p) && |p| > 1
    ensures p[0] != p[|p| - 1]
    ensures |p| - 1 < |tiers|
    ensures p[0] in at && p[|p| - 1] in at
    ensures at[p[0]].0 == applets ==> at[p[|p| - 1]].0 != applets
  {
    assert (p[0], p[1]) in edges;
    ChainDescends(edges, at, applets, p);
  }

  // ------------------------------------------------------------- the default image

  // Crates linked without an optional edge, as the manifests list them.
  type Links = map<Crate, set<Crate>>

  function Direct(always: Links, c: Crate): set<Crate> {
    if c in always then always[c] else {}
  }

  ghost predicate Route(always: Links, start: set<Crate>, p: seq<Crate>) {
    && p != [] && p[0] in start
    && forall i :: 0 < i < |p| ==> Link(always, p[i - 1], p[i])
  }

  ghost predicate Link(always: Links, c: Crate, d: Crate) { c in always && d in always[c] }

  ghost predicate Linked(always: Links, start: set<Crate>, c: Crate) {
    exists p :: Route(always, start, p) && p[|p| - 1] == c
  }

  ghost function Everything(always: Links, start: set<Crate>): set<Crate> {
    start + set c, d | c in always && d in always[c] :: d
  }

  lemma LinkedStep(always: Links, start: set<Crate>, c: Crate, d: Crate)
    requires Linked(always, start, c) && d in Direct(always, c)
    ensures Linked(always, start, d)
  {
    var p :| Route(always, start, p) && p[|p| - 1] == c;
    var q := p + [d];
    assert Route(always, start, q) && q[|q| - 1] == d;
  }

  lemma LinkedStart(always: Links, start: set<Crate>, c: Crate)
    requires c in start
    ensures Linked(always, start, c)
  {
    var p := [c];
    assert Route(always, start, p) && p[|p| - 1] == c;
  }

  lemma {:induction false} ClosedHoldsRoute(always: Links, start: set<Crate>, s: set<Crate>, p: seq<Crate>)
    requires start <= s && forall c :: c in s ==> Direct(always, c) <= s
    requires Route(always, start, p)
    ensures p[|p| - 1] in s
    decreases |p|
  {
    if |p| > 1 {
      var q := p[..|p| - 1];
      assert Route(always, start, q);
      ClosedHoldsRoute(always, start, s, q);
      assert p[|p| - 1] in Direct(always, q[|q| - 1]);
    }
  }

  // Pending: what was added and whose own links are still to be followed.
  ghost predicate Following(always: Links, start: set<Crate>, firm: set<Crate>, todo: seq<Crate>) {
    && start <= firm <= Everything(always, start)
    && (forall c :: c in firm ==> Linked(always, start, c))
    && (forall c :: c in todo ==> c in firm)
    && forall c :: c in firm && c !in todo ==> Direct(always, c) <= firm
  }

  function SetOf(cs: seq<Crate>): set<Crate> {
    set c | c in cs
  }

  method Firm(always: Links, binaries: seq<Crate>) returns (firm: set<Crate>)
    ensures forall c :: c in firm <==> Linked(always, (set b | b in binaries), c)
  {
    ghost var start := SetOf(binaries);
    firm := SetOf(binaries);
    var todo := binaries;
    forall c | c in firm ensures Linked(always, start, c) { LinkedStart(always, start, c); }
    while todo != []
      invariant Following(always, start, firm, todo)
      decreases Everything(always, start) - firm, |todo|
    {
      var c := todo[|todo| - 1];
      var added := Direct(always, c) - firm;
      firm, todo := Follow(always, start, firm, todo, added);
    }
    forall c | Linked(always, start, c) ensures c in firm {
      var p :| Route(always, start, p) && p[|p| - 1] == c;
      ClosedHoldsRoute(always, start, firm, p);
    }
  }

  method Follow(always: Links, ghost start: set<Crate>, firm0: set<Crate>, todo0: seq<Crate>, added: set<Crate>)
    returns (firm: set<Crate>, todo: seq<Crate>)
    requires todo0 != [] && Following(always, start, firm0, todo0)
    requires added == Direct(always, todo0[|todo0| - 1]) - firm0
    ensures Following(always, start, firm, todo) && firm0 <= firm
    ensures firm == firm0 ==> |todo| < |todo0|
  {
    ghost var base := todo0[..|todo0| - 1];
    firm, todo := firm0, todo0[..|todo0| - 1];
    var rest := added;
    while rest != {}
      invariant rest <= added && firm == firm0 + (added - rest)
      invariant rest == added ==> todo == base
      invariant forall x :: x in todo <==> x in base || x in added - rest
    {
      var d :| d in rest;
      rest := rest - {d};
      assert d in added - rest;
      firm, todo := firm + {d}, todo + [d];
    }
    FollowDone(always, start, firm0, todo0, todo);
  }

  lemma FollowDone(always: Links, start: set<Crate>, firm0: set<Crate>, todo0: seq<Crate>, todo: seq<Crate>)
    requires todo0 != [] && Following(always, start, firm0, todo0)
    requires var added := Direct(always, todo0[|todo0| - 1]) - firm0;
             forall x :: x in todo <==> x in todo0[..|todo0| - 1] || x in added
    ensures Following(always, start, firm0 + Direct(always, todo0[|todo0| - 1]), todo)
  {
    var c := todo0[|todo0| - 1];
    assert c in todo0;
    var firm := firm0 + Direct(always, c);
    LastOrFront(todo0);
    forall x | x in firm ensures Linked(always, start, x) && x in Everything(always, start) {
      if x !in firm0 { LinkedStep(always, start, c, x); }
    }
    forall x | x in firm && x !in todo ensures Direct(always, x) <= firm {
      DoneStays(always, start, firm0, todo0, x, c);
    }
  }

  lemma LastOrFront(todo: seq<Crate>)
    requires todo != []
    ensures forall x :: x in todo <==> x in todo[..|todo| - 1] || x == todo[|todo| - 1]
  {
    assert todo == todo[..|todo| - 1] + [todo[|todo| - 1]];
  }

  lemma DoneStays(always: Links, start: set<Crate>, firm: set<Crate>, todo: seq<Crate>, x: Crate, c: Crate)
    requires Following(always, start, firm, todo) && (x == c || (x in firm && x !in todo))
    ensures Direct(always, x) <= firm + Direct(always, c)
  {}
}
