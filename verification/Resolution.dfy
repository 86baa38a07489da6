// Which file a `mod` declaration names, said without the functions that work it out.
module Resolution {
  import opened Text
  import opened Exclusion
  import opened Shipping

  // A component that is a name, not a direction.
  predicate Name(c: string) {
    c != "" && c != "." && c != ".." && '/' !in c
  }

  predicate Names(p: Path) {
    forall i :: 0 <= i < |p| ==> Name(p[i])
  }

  // ---------------------------------------------------------------- components

  lemma {:induction false} ComponentsOfOne(s: string)
    requires '/' !in s
    ensures Components(s) == [s]
  {
    if s != "" {
      assert s[0] in s;
      ComponentsOfOne(s[1..]);
      assert [s[0]] + s[1..] == s;
    }
  }

  lemma {:induction false} ComponentsOfMore(c: string, rest: string)
    requires '/' !in c
    ensures Components(c + "/" + rest) == [c] + Components(rest)
    decreases |c|
  {
    var s := c + "/" + rest;
    if c == "" {
      assert s[0] == '/' && s[1..] == rest;
    } else {
      assert c[0] in c && s[1..] == c[1..] + "/" + rest;
      ComponentsOfMore(c[1..], rest);
      assert [c[0]] + c[1..] == c;
    }
  }

  lemma {:induction false} ComponentsJoin(cs: seq<string>)
    requires cs != [] && forall i :: 0 <= i < |cs| ==> '/' !in cs[i]
    ensures Components(Join(cs, "/")) == cs
  {
    if |cs| == 1 {
      ComponentsOfOne(cs[0]);
    } else {
      ComponentsJoin(cs[1..]);
      ComponentsOfMore(cs[0], Join(cs[1..], "/"));
    }
  }

  // An inline module's directory may itself be a path.
  lemma {:induction false} SpreadIs(dirs: seq<string>, parts: seq<Path>)
    requires |dirs| == |parts| && forall i :: 0 <= i < |dirs| ==> Spelled(dirs[i], parts[i])
    ensures Spread(dirs) == Concat(parts)
  {
    if dirs != [] {
      assert Spelled(dirs[0], parts[0]);
      ComponentsJoin(parts[0]);
      SpreadIs(dirs[1..], parts[1..]);
    }
  }

  predicate Spelled(dir: string, names: Path) {
    names != [] && Names(names) && dir == Join(names, "/")
  }

  // --------------------------------------------------------------- working it out

  lemma CollapseLast(p: Path, c: string)
    ensures Collapse(p + [c]) ==
            if c == "" || c == "." then Collapse(p)
            else if c == ".." then Parent(Collapse(p)) else Collapse(p) + [c]
  {
    assert (p + [c])[..|p|] == p;
  }

  lemma {:induction false} CollapseNames(p: Path, names: Path)
    requires Names(names)
    ensures Collapse(p + names) == Collapse(p) + names
    decreases |names|
  {
    if names == [] {
      assert p + names == p;
    } else {
      var n := |names| - 1;
      assert Name(names[n]) && p + names == p + names[..n] + [names[n]];
      CollapseNames(p, names[..n]);
      CollapseLast(p + names[..n], names[n]);
    }
  }

  lemma CleanStays(p: Path)
    requires Names(p)
    ensures Collapse(p) == p
  {
    CollapseNames([], p);
    assert [] + p == p;
  }

  function Ups(n: nat): (s: Path)
    ensures |s| == n && forall i :: 0 <= i < n ==> s[i] == ".."
  {
    seq(n, _ => "..")
  }

  lemma {:induction false} CollapseUps(p: Path, n: nat)
    requires Names(p) && n <= |p|
    ensures Collapse(p + Ups(n)) == p[..|p| - n]
    decreases n
  {
    if n == 0 {
      CleanStays(p);
      assert p + Ups(0) == p;
    } else {
      assert p + Ups(n) == p + Ups(n - 1) + [".."];
      CollapseUps(p, n - 1);
      CollapseLast(p + Ups(n - 1), "..");
    }
  }

  // ----------------------------------------------------------------- the two rules

  // A plain `mod name;`: `name.rs` in the home of the declaring file, and in the
  // directories of the inline modules around it, before `name/mod.rs`.
  lemma PlainTarget(disk: set<Path>, dir: Path, stem: string, name: string, dirs: seq<string>, parts: seq<Path>)
    requires Names(dir) && Name(stem) && Name(name + ".rs") && Name(name)
    requires |dirs| == |parts| && forall i :: 0 <= i < |dirs| ==> Spelled(dirs[i], parts[i])
    ensures var own := if stem == "lib" || stem == "main" || stem == "mod" then dir else dir + [stem];
            var home := own + Concat(parts);
            Target(disk, dir + [stem + ".rs"], name, None, dirs) ==
              if home + [name + ".rs"] in disk then Some(home + [name + ".rs"])
              else if home + [name, "mod.rs"] in disk then Some(home + [name, "mod.rs"]) else None
  {
    var parent := dir + [stem + ".rs"];
    HomeIs(dir, stem, dirs, parts);
    var home := ChildHome(parent) + Spread(dirs);
    CleanEnd(home, [name + ".rs"]);
    CleanEnd(home, [name, "mod.rs"]);
    ByName(disk, parent, name, dirs, home, home + [name + ".rs"], home + [name, "mod.rs"]);
  }

  lemma CleanEnd(home: Path, end: Path)
    requires Names(home) && Names(end)
    ensures Collapse(home + end) == home + end
  {
    CleanStays(home + end);
  }

  lemma HomeIs(dir: Path, stem: string, dirs: seq<string>, parts: seq<Path>)
    requires Names(dir) && Name(stem)
    requires |dirs| == |parts| && forall i :: 0 <= i < |dirs| ==> Spelled(dirs[i], parts[i])
    ensures var home := ChildHome(dir + [stem + ".rs"]) + Spread(dirs);
            && Names(home)
            && home == (if stem == "lib" || stem == "main" || stem == "mod" then dir else dir + [stem]) + Concat(parts)
  {
    ChildHomeIs(dir, stem);
    SpreadIs(dirs, parts);
    ConcatNames(parts);
  }

  lemma {:induction false} ConcatNames(parts: seq<Path>)
    requires forall i :: 0 <= i < |parts| ==> Names(parts[i])
    ensures Names(Concat(parts))
  {
    if parts != [] { ConcatNames(parts[1..]); }
  }

  // A `#[path]`: from the declaring file's directory, or the innermost inline module's,
  // up as often as it says and down by its names, with no other candidate.
  lemma PathTarget(disk: set<Path>, dir: Path, stem: string, name: string, up: nat, down: Path,
                   dirs: seq<string>, parts: seq<Path>, parent: Path, from: Path)
    requires Names(dir) && Name(stem) && down != [] && Names(down)
    requires |dirs| == |parts| && forall i :: 0 <= i < |dirs| ==> Spelled(dirs[i], parts[i])
    requires parent == dir + [stem + ".rs"] && from == From(dir, stem, parts) && up <= |from|
    ensures var f := from[..|from| - up] + down;
            Target(disk, parent, name, Some(Join(Ups(up) + down, "/")), dirs) == if f in disk then Some(f) else None
  {
    FromIs(dir, stem, dirs, parts);
    PathFrom(disk, parent, name, dirs, from, up, down);
  }

  lemma PathFrom(disk: set<Path>, parent: Path, name: string, dirs: seq<string>, from: Path, up: nat, down: Path)
    requires from == if dirs != [] then ChildHome(parent) + Spread(dirs) else Parent(parent)
    requires Names(from) && Names(down) && down != [] && up <= |from|
    ensures var f := from[..|from| - up] + down;
            Target(disk, parent, name, Some(Join(Ups(up) + down, "/")), dirs) == if f in disk then Some(f) else None
  {
    var cs := Ups(up) + down;
    NoSlashes(up, down);
    ComponentsJoin(cs);
    UpAndDown(from, up, down);
    ByRel(disk, parent, name, Join(cs, "/"), dirs, from, cs, from[..|from| - up] + down);
  }

  lemma NoSlashes(up: nat, down: Path)
    requires Names(down)
    ensures forall i :: 0 <= i < |Ups(up) + down| ==> '/' !in (Ups(up) + down)[i]
  {
    forall i | 0 <= i < |Ups(up) + down| ensures '/' !in (Ups(up) + down)[i] {
      if i >= up { assert Name(down[i - up]); }
    }
  }

  lemma ByRel(disk: set<Path>, parent: Path, name: string, rel: string, dirs: seq<string>,
              from: Path, cs: Path, f: Path)
    requires from == if dirs != [] then ChildHome(parent) + Spread(dirs) else Parent(parent)
    requires Components(rel) == cs && Collapse(from + cs) == f
    ensures Target(disk, parent, name, Some(rel), dirs) == if f in disk then Some(f) else None
  {}

  lemma ByName(disk: set<Path>, parent: Path, name: string, dirs: seq<string>, home: Path, flat: Path, nested: Path)
    requires home == ChildHome(parent) + Spread(dirs)
    requires Collapse(home + [name + ".rs"]) == flat && Collapse(home + [name, "mod.rs"]) == nested
    ensures Target(disk, parent, name, None, dirs) ==
            if flat in disk then Some(flat) else if nested in disk then Some(nested) else None
  {}

  lemma FromIs(dir: Path, stem: string, dirs: seq<string>, parts: seq<Path>)
    requires Names(dir) && Name(stem)
    requires |dirs| == |parts| && forall i :: 0 <= i < |dirs| ==> Spelled(dirs[i], parts[i])
    ensures var parent := dir + [stem + ".rs"];
            From(dir, stem, parts) == if dirs != [] then ChildHome(parent) + Spread(dirs) else Parent(parent)
    ensures Names(From(dir, stem, parts))
  {
    ChildHomeIs(dir, stem);
    SpreadIs(dirs, parts);
    ConcatNames(parts);
    assert Parent(dir + [stem + ".rs"]) == dir;
  }

  lemma UpAndDown(from: Path, up: nat, down: Path)
    requires Names(from) && Names(down) && down != [] && up <= |from|
    ensures Collapse(from + (Ups(up) + down)) == from[..|from| - up] + down
  {
    CollapseUps(from, up);
    CollapseNames(from + Ups(up), down);
    Grouped(from, Ups(up), down);
  }

  lemma Grouped(a: Path, b: Path, c: Path)
    ensures a + (b + c) == a + b + c
  {}

  function From(dir: Path, stem: string, parts: seq<Path>): Path {
    if parts == [] then dir
    else (if stem == "lib" || stem == "main" || stem == "mod" then dir else dir + [stem]) + Concat(parts)
  }
}
