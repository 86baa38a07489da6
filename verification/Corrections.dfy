// Following a `superseded_by` chain to the row that corrects it, without being
// fooled by a cycle.
module Corrections {
  import opened Text

  datatype Row = Row(mutant: string, direction: string, disposition: string, supersededBy: string)

  type Rows = map<string, Row>

  predicate Inverse(rows: Rows, name: string) {
    name in rows && rows[name].direction == "inverse"
  }

  // A run of the chain: every row but the last is inverse and names the next.
  ghost predicate Chain(rows: Rows, p: seq<string>) {
    p != [] && forall i :: 0 < i < |p| ==> Next(rows, p[i - 1], p[i])
  }

  ghost predicate Next(rows: Rows, a: string, b: string) {
    a in rows && rows[a].direction == "inverse" && rows[a].supersededBy == b
  }

  // The chain from `start` ends at `end`, a row that is there and not inverse.
  ghost predicate Ends(rows: Rows, start: string, p: seq<string>, end: string) {
    Chain(rows, p) && p[0] == start && p[|p| - 1] == end && end in rows && rows[end].direction != "inverse"
  }

  ghost predicate Corrected(rows: Rows, start: string) {
    exists p, end :: Ends(rows, start, p, end)
  }

  // A set the chain cannot leave.
  ghost predicate Trap(rows: Rows, s: set<string>) {
    forall n :: n in s && Inverse(rows, n) ==> rows[n].supersededBy in s
  }

  lemma {:induction false} ChainStaysTrapped(rows: Rows, s: set<string>, p: seq<string>)
    requires Trap(rows, s) && Chain(rows, p) && p[0] in s
    ensures p[|p| - 1] in s
    decreases |p|
  {
    if |p| > 1 {
      var q := p[..|p| - 1];
      assert Chain(rows, q) by {
        forall i | 0 < i < |q| ensures Next(rows, q[i - 1], q[i]) { assert Next(rows, p[i - 1], p[i]); }
      }
      ChainStaysTrapped(rows, s, q);
      assert Next(rows, p[|p| - 2], p[|p| - 1]);
    }
  }

  ghost function Extend(rows: Rows, p: seq<string>, next: string): (q: seq<string>)
    requires Chain(rows, p) && Next(rows, p[|p| - 1], next)
    ensures Chain(rows, q) && q[0] == p[0] && q[|q| - 1] == next
  {
    assert forall i :: 0 < i < |p| ==> Next(rows, p[i - 1], p[i]);
    p + [next]
  }

  method CorrectedBy(rows: Rows, start: string) returns (r: Option<string>)
    ensures r.Some? <==> Corrected(rows, start)
    ensures forall p, end :: Ends(rows, start, p, end) ==> r == Some(end)
  {
    var seen: set<string>, name := {}, start;
    ghost var path := [start];
    while name in rows && rows[name].direction == "inverse"
      invariant seen <= rows.Keys && forall n :: n in seen ==> Inverse(rows, n)
      invariant forall n :: n in seen ==> rows[n].supersededBy in seen + {name}
      invariant start in seen + {name}
      invariant Chain(rows, path) && path[0] == start && path[|path| - 1] == name
      decreases rows.Keys - seen
    {
      if name in seen {
        forall p, end | Ends(rows, start, p, end) ensures false {
          ChainStaysTrapped(rows, seen, p);
        }
        return None;
      }
      seen := seen + {name};
      var next := rows[name].supersededBy;
      path := Extend(rows, path, next);
      name := next;
    }
    forall p, end | Ends(rows, start, p, end) ensures end == name {
      ChainStaysTrapped(rows, seen + {name}, p);
    }
    r := if name in rows then Some(name) else None;
    assert name in rows ==> Ends(rows, start, path, name);
  }

  // ----------------------------------------------------------------- no cycles

  // Two runs of the chain from one name agree as far as both go.
  lemma {:induction false} ChainIsDetermined(rows: Rows, p: seq<string>, q: seq<string>, i: nat)
    requires Chain(rows, p) && Chain(rows, q) && p[0] == q[0] && i < |p| && i < |q|
    ensures p[i] == q[i]
  {
    if i > 0 {
      ChainIsDetermined(rows, p, q, i - 1);
      assert Next(rows, p[i - 1], p[i]) && Next(rows, q[i - 1], q[i]);
    }
  }

  // A chain that ends never meets a name twice.
  lemma {:induction false} EndedHasNoCycle(rows: Rows, start: string, e: seq<string>, end: string, i: nat, j: nat)
    requires Ends(rows, start, e, end) && i < j < |e|
    ensures e[i] != e[j]
    decreases |e| - j
  {
    if j == |e| - 1 {
      assert Next(rows, e[i + 1 - 1], e[i + 1]);
    } else {
      EndedHasNoCycle(rows, start, e, end, i + 1, j + 1);
      assert Next(rows, e[i + 1 - 1], e[i + 1]) && Next(rows, e[j + 1 - 1], e[j + 1]);
    }
  }

  lemma LongerGoesOn(rows: Rows, e: seq<string>, p: seq<string>)
    requires Chain(rows, e) && Chain(rows, p) && e[0] == p[0] && |e| < |p|
    ensures Inverse(rows, e[|e| - 1])
  {
    ChainIsDetermined(rows, p, e, |e| - 1);
    assert Next(rows, p[|e| - 1], p[|e|]);
  }

  // And no run from there, however long, meets one either.
  lemma CorrectedHasNoCycle(rows: Rows, start: string, e: seq<string>, end: string, p: seq<string>)
    requires Ends(rows, start, e, end) && Chain(rows, p) && p[0] == start
    ensures |p| <= |e| && forall i, j :: 0 <= i < j < |p| ==> p[i] != p[j]
  {
    if |p| > |e| { LongerGoesOn(rows, e, p); }
    forall i, j | 0 <= i < j < |p| && j < |e| ensures p[i] != p[j] {
      ChainIsDetermined(rows, p, e, i);
      ChainIsDetermined(rows, p, e, j);
      EndedHasNoCycle(rows, start, e, end, i, j);
    }
  }

  // -------------------------------------------------------------- the register

  function ByName(rows: seq<Row>): Rows {
    if rows == [] then map[] else ByName(rows[..|rows| - 1])[rows[|rows| - 1].mutant := rows[|rows| - 1]]
  }

  // The last row of a name stands for it.
  lemma {:induction false} ByNameIs(rows: seq<Row>, name: string)
    ensures name in ByName(rows) <==> exists i :: 0 <= i < |rows| && rows[i].mutant == name
    ensures forall i :: 0 <= i < |rows| && rows[i].mutant == name
                        && (forall j :: i < j < |rows| ==> rows[j].mutant != name) ==>
              name in ByName(rows) && ByName(rows)[name] == rows[i]
  {
    if rows != [] {
      var n := |rows| - 1;
      ByNameIs(rows[..n], name);
      assert rows[..n + 1] == rows;
      assert forall i :: 0 <= i < n ==> rows[..n][i] == rows[i];
    }
  }

  predicate Superseded(r: Row) { r.direction == "inverse" && r.disposition == "superseded" }

  // Another row of the group carries the name.
  predicate NamesAnother(rows: seq<Row>, r: Row) {
    r.supersededBy != r.mutant && exists i :: 0 <= i < |rows| && rows[i].mutant == r.supersededBy
  }

  // A superseded row is in order when it names another row and its chain ends.
  ghost predicate InOrder(rows: seq<Row>, r: Row) {
    r.direction == "inverse" && r.disposition == "superseded" ==>
      && r.supersededBy != r.mutant && (exists x :: x in rows && x.mutant == r.supersededBy)
      && Corrected(ByName(rows), r.supersededBy)
  }

  // The rows the gate reports, by position.
  method Reported(rows: seq<Row>) returns (bad: seq<nat>)
    ensures forall i :: 0 <= i < |rows| ==> (i in bad <==> !InOrder(rows, rows[i]))
  {
    bad := [];
    var byName := ByName(rows);
    for i := 0 to |rows|
      invariant forall k :: k in bad ==> k < i
      invariant forall k :: 0 <= k < i ==> (k in bad <==> !InOrder(rows, rows[k]))
    {
      if Superseded(rows[i]) {
        var fixedBy := CorrectedBy(byName, rows[i].supersededBy);
        if !NamesAnother(rows, rows[i]) || fixedBy.None? { bad := bad + [i]; }
      }
    }
  }

  // A clean report means the correction relation has no cycle: no chain from a
  // superseded row, or from what it names, meets a name twice. A row counts under its
  // own name when no later row takes that name.
  lemma CleanReportHasNoCycle(rows: seq<Row>, r: Row, p: seq<string>)
    requires (forall x :: x in rows ==> InOrder(rows, x)) && r in rows && Superseded(r)
    requires Chain(ByName(rows), p)
    requires p[0] == r.supersededBy || (p[0] == r.mutant && p[0] in ByName(rows) && ByName(rows)[p[0]] == r)
    ensures forall a, b :: 0 <= a < b < |p| ==> p[a] != p[b]
  {
    var all := ByName(rows);
    var e, end :| Ends(all, r.supersededBy, e, end);
    if p[0] == r.supersededBy {
      CorrectedHasNoCycle(all, r.supersededBy, e, end, p);
    } else {
      EndsBefore(all, r.mutant, e, end);
      CorrectedHasNoCycle(all, r.mutant, [r.mutant] + e, end, p);
    }
  }

  lemma EndsBefore(rows: Rows, name: string, e: seq<string>, end: string)
    requires e != [] && Next(rows, name, e[0]) && Ends(rows, e[0], e, end)
    ensures Ends(rows, name, [name] + e, end)
  {
    var q := [name] + e;
    forall i | 0 < i < |q| ensures Next(rows, q[i - 1], q[i]) {
      if i > 1 { assert Next(rows, e[i - 1 - 1], e[i - 1]); }
    }
  }
}
