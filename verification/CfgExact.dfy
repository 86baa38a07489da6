// The partner of soundness: where the atoms of a predicate can be set independently,
// the three-valued answer is the whole truth. Free then means that some admissible
// build satisfies it and some other does not. What ties atoms together is a
// parameter: `ExactWhereIndependent` holds for every family of builds, and
// `VerdictIsExact` is the family that respects what the Rust Reference says of the
// keys themselves. Enablement between features and the tables of existing targets
// are not imposed on builds; a gate they decide is answered Free.
module CfgExact {
  import opened Text
  import opened Cfg
  import opened CfgLaws

  ghost function Atoms(s: Src): set<Atom>
    decreases s, 1
  {
    match s
    case Flag(_, name, _) => {Bare(name)}
    case Pair(_, key, _, _, value, _) => {Setting(key, value)}
    case Combo(_, _, _, parts, _, _) => AtomsOf(parts)
  }

  ghost function AtomsOf(parts: seq<Src>): (atoms: set<Atom>)
    ensures forall i :: 0 <= i < |parts| ==> Atoms(parts[i]) <= atoms
    decreases parts, 0
  {
    if parts == [] then {} else Atoms(parts[0]) + AtomsOf(parts[1..])
  }

  // No atom occurs twice.
  ghost predicate ReadOnce(s: Src)
    decreases s, 1
  {
    s.Combo? ==> ReadOnceAll(s.parts)
  }

  ghost predicate ReadOnceAll(parts: seq<Src>)
    ensures ReadOnceAll(parts) ==> forall i :: 0 <= i < |parts| ==> ReadOnce(parts[i])
    decreases parts, 0
  {
    parts != [] ==>
      && ReadOnce(parts[0])
      && Atoms(parts[0]) !! AtomsOf(parts[1..])
      && ReadOnceAll(parts[1..])
  }

  // Spelled the way the evaluator recognises: no gap before a parenthesis, and a
  // named feature on one line and in one piece.
  ghost predicate Recognised(s: Src)
    decreases s
  {
    match s
    case Flag(_, _, _) => true
    case Pair(_, key, g1, g2, value, _) => key == "feature" ==> value != "" && OnlyBlanks(g1) && OnlyBlanks(g2)
    case Combo(_, _, gap, parts, _, _) =>
      && gap == ""
      && forall i :: 0 <= i < |parts| ==> Recognised(parts[i]) && (Cut(parts[i]) ==> parts[i].key != "feature")
  }

  lemma {:induction false} SatIsLocal(c: Config, d: Config, s: Src)
    requires c * Atoms(s) == d * Atoms(s)
    ensures Sat(c, s) == Sat(d, s)
    decreases s
  {
    match s
    case Flag(_, name, _) =>
      assert Bare(name) in c <==> Bare(name) in c * Atoms(s);
      assert Bare(name) in d <==> Bare(name) in d * Atoms(s);
    case Pair(_, key, _, _, value, _) =>
      assert Setting(key, value) in c <==> Setting(key, value) in c * Atoms(s);
      assert Setting(key, value) in d <==> Setting(key, value) in d * Atoms(s);
    case Combo(_, _, _, parts, _, _) =>
      forall i | 0 <= i < |parts| ensures Sat(c, parts[i]) == Sat(d, parts[i]) {
        var a := Atoms(parts[i]);
        assert c * a == (c * Atoms(s)) * a == (d * Atoms(s)) * a == d * a;
        SatIsLocal(c, d, parts[i]);
      }
  }

  ghost predicate Can(v: Verdict, b: bool) {
    v == Free || v == if b then Yes else No
  }

  lemma {:induction false} SteerAll(parts: seq<Src>, shippable: set<string>, b: bool) returns (c: Config)
    requires ReadOnceAll(parts)
    requires forall i :: 0 <= i < |parts| ==> Recognised(parts[i]) && Can(Kleene(parts[i], shippable), b)
    ensures Admissible(c, shippable)
    ensures forall i :: 0 <= i < |parts| ==> Sat(c, parts[i]) == b
    decreases parts, 0
  {
    if parts == [] { return {}; }
    var head := Steer(parts[0], shippable, b);
    var rest := SteerAll(parts[1..], shippable, b);
    var a := Atoms(parts[0]);
    c := head * a + (rest - a);
    assert c * a == head * a;
    SatIsLocal(c, head, parts[0]);
    forall i | 1 <= i < |parts| ensures Sat(c, parts[i]) == b {
      var tail := parts[1..];
      assert parts[i] == tail[i - 1];
      assert Atoms(tail[i - 1]) <= AtomsOf(tail);
      assert c * Atoms(parts[i]) == rest * Atoms(parts[i]);
      SatIsLocal(c, rest, parts[i]);
    }
  }

  // A build that gives the predicate the value the verdict allows.
  lemma {:induction false} Steer(s: Src, shippable: set<string>, b: bool) returns (c: Config)
    requires Recognised(s) && ReadOnce(s) && Can(Kleene(s, shippable), b)
    ensures Admissible(c, shippable) && Sat(c, s) == b
    decreases s, 1
  {
    match s
    case Flag(_, name, _) => c := if b then {Bare(name)} else {};
    case Pair(_, key, _, _, value, _) => c := if b then {Setting(key, value)} else {};
    case Combo(_, op, _, parts, _, _) =>
      var held := KleeneAll(parts, shippable);
      forall i | 0 <= i < |parts| ensures held[i] == Kleene(parts[i], shippable) {
        assert Recognised(parts[i]);
      }
      if op == NotOf {
        c := Steer(parts[0], shippable, !b);
      } else if (op == AllOf) == b {
        forall i | 0 <= i < |parts| ensures Can(Kleene(parts[i], shippable), b) {
          assert held[i] in held;
        }
        c := SteerAll(parts, shippable, b);
      } else {
        assert Free in held || (if b then Yes else No) in held;
        var i :| 0 <= i < |held| && Can(held[i], b);
        c := Steer(parts[i], shippable, b);
      }
  }

  // Every admissible choice among `atoms` is made by some build of the family.
  ghost predicate Independent(builds: iset<Config>, atoms: set<Atom>, shippable: set<string>) {
    forall a :: a <= atoms && Admissible(a, shippable) ==> Chosen(builds, atoms, a)
  }

  ghost predicate Chosen(builds: iset<Config>, atoms: set<Atom>, a: Config) {
    exists c :: c in builds && c * atoms == a
  }

  lemma SteerWithin(s: Src, shippable: set<string>, builds: iset<Config>, b: bool) returns (c: Config)
    requires Recognised(s) && ReadOnce(s) && Can(Kleene(s, shippable), b)
    requires Independent(builds, Atoms(s), shippable)
    ensures c in builds && Sat(c, s) == b
  {
    var any := Steer(s, shippable, b);
    var a := any * Atoms(s);
    assert Admissible(a, shippable) && Chosen(builds, Atoms(s), a);
    c :| c in builds && c * Atoms(s) == a;
    SatIsLocal(c, any, s);
  }

  // Exactness: the verdict tells what the builds of the family do, all of them.
  lemma ExactWhereIndependent(s: Src, shippable: set<string>, builds: iset<Config>)
    requires Legal(s) && Recognised(s) && ReadOnce(s)
    requires (forall c :: c in builds ==> Admissible(c, shippable)) && Independent(builds, Atoms(s), shippable)
    ensures CfgHolds(Render(s), shippable) == No <==> forall c :: c in builds ==> !Sat(c, s)
    ensures CfgHolds(Render(s), shippable) == Yes <==> forall c :: c in builds ==> Sat(c, s)
  {
    ReadsEverySpelling(s, shippable);
    NeverRaises(s, shippable);
    forall c | c in builds
      ensures Kleene(s, shippable) == No ==> !Sat(c, s)
      ensures Kleene(s, shippable) == Yes ==> Sat(c, s)
    {
      DefiniteIsRight(s, shippable, c);
    }
    if Kleene(s, shippable) != No { var c := SteerWithin(s, shippable, builds, true); }
    if Kleene(s, shippable) != Yes { var c := SteerWithin(s, shippable, builds, false); }
  }

  // ------------------------------------------------------------- coherent builds

  // The keys rustc sets to one value, and the names that abbreviate a family.
  const SET_ONCE: set<string> :=
    {"target_arch", "target_os", "target_env", "target_abi", "target_endian", "target_pointer_width",
     "target_vendor", "panic"}
  const FAMILIES: set<string> := {"unix", "windows"}

  // The two names every build fixes: `cfg(true)` holds in all of them, `cfg(false)`
  // in none.
  const FIXED: set<Atom> := {Bare("true"), Bare("false")}

  ghost predicate Coherent(c: Config) {
    && Bare("true") in c && Bare("false") !in c
    && (forall a, b :: a in c && b in c && SameKey(a, b) ==> a == b)
    && forall n :: n in FAMILIES ==> (Bare(n) in c <==> Setting("target_family", n) in c)
  }

  ghost predicate SameKey(a: Atom, b: Atom) {
    a.Setting? && b.Setting? && a.key == b.key && a.key in SET_ONCE
  }

  // Choosing one decides the other.
  ghost predicate Tied(a: Atom, b: Atom) {
    || (SameKey(a, b) && a != b)
    || (a.Bare? && a.name in FAMILIES && b == Setting("target_family", a.name))
  }

  // No atom of the gate is fixed and no two are tied: no `true` or `false`, no key
  // that is set once twice, and no family named both ways.
  ghost predicate Untied(atoms: set<Atom>) {
    atoms !! FIXED && forall a, b :: a in atoms && b in atoms ==> !Tied(a, b)
  }

  ghost function CoherentBuilds(shippable: set<string>): iset<Config> {
    iset c | Admissible(c, shippable) && Coherent(c)
  }

  ghost function BothNames(a: Config): Config {
    a + {Bare("true")}
      + (set n | n in FAMILIES && Bare(n) in a :: Setting("target_family", n))
      + (set n | n in FAMILIES && Setting("target_family", n) in a :: Bare(n))
  }

  lemma BothNamesChooses(atoms: set<Atom>, a: Config)
    requires a <= atoms && Untied(atoms)
    ensures BothNames(a) * atoms == a
  {
    forall x | x in BothNames(a) && x in atoms ensures x in a {
      assert x !in FIXED;
      if x !in a {
        assert x.Setting? ==> Tied(Bare(x.value), x);
        assert x.Bare? ==> Tied(x, Setting("target_family", x.name));
      }
    }
  }

  lemma BothNamesIsCoherent(atoms: set<Atom>, a: Config, shippable: set<string>)
    requires a <= atoms && Untied(atoms) && Admissible(a, shippable)
    ensures Admissible(BothNames(a), shippable) && Coherent(BothNames(a))
  {
    forall x, y | x in BothNames(a) && y in BothNames(a) && SameKey(x, y) ensures x == y {
      assert "target_family" !in SET_ONCE;
      assert x in atoms && y in atoms && !Tied(x, y);
    }
    assert Bare("false") !in atoms && "false" !in FAMILIES;
  }

  lemma UntiedIsIndependent(atoms: set<Atom>, shippable: set<string>)
    requires Untied(atoms)
    ensures Independent(CoherentBuilds(shippable), atoms, shippable)
  {
    forall a | a <= atoms && Admissible(a, shippable) ensures Chosen(CoherentBuilds(shippable), atoms, a) {
      BothNamesChooses(atoms, a);
      BothNamesIsCoherent(atoms, a, shippable);
      assert BothNames(a) in CoherentBuilds(shippable);
    }
  }

  // Over the coherent admissible builds, on a gate that repeats no atom and ties none.
  lemma VerdictIsExact(s: Src, shippable: set<string>)
    requires Legal(s) && Recognised(s) && ReadOnce(s) && Untied(Atoms(s))
    ensures CfgHolds(Render(s), shippable) == No <==>
              forall c :: Admissible(c, shippable) && Coherent(c) ==> !Sat(c, s)
    ensures CfgHolds(Render(s), shippable) == Yes <==>
              forall c :: Admissible(c, shippable) && Coherent(c) ==> Sat(c, s)
  {
    UntiedIsIndependent(Atoms(s), shippable);
    ExactWhereIndependent(s, shippable, CoherentBuilds(shippable));
    forall c ensures c in CoherentBuilds(shippable) <==> Admissible(c, shippable) && Coherent(c) {}
  }

  lemma {:induction false} NeverRaises(s: Src, shippable: set<string>)
    requires Legal(s)
    ensures Kleene(s, shippable) != Raises
    decreases s
  {
    if s.Combo? {
      forall i | 0 <= i < |s.parts| ensures Kleene(s.parts[i], shippable) != Raises {
        NeverRaises(s.parts[i], shippable);
      }
    }
  }

  // Repeating an atom is where exactness ends: this gate holds in no build at all
  // and the evaluator still answers Free.
  lemma RepeatedAtomIsKept()
    ensures var t := Combo("", AllOf, "",
                           [Flag("", "x", ""), Combo("", NotOf, "", [Flag("", "x", "")], None, "")], None, "");
            && Legal(t) && Recognised(t)
            && CfgHolds(Render(t), {}) == Free
            && forall c :: !Sat(c, t)
  {
    var x := Flag("", "x", "");
    NegationOf(x);
    ConjunctionOf(x, Combo("", NotOf, "", [x], None, ""));
    ReadsEverySpelling(Combo("", AllOf, "", [x, Combo("", NotOf, "", [x], None, "")], None, ""), {});
  }

  lemma NegationOf(x: Src)
    requires Legal(x) && Recognised(x) && Fits(x) && !Cut(x)
    ensures var t := Combo("", NotOf, "", [x], None, "");
            && Legal(t) && Recognised(t)
            && (Kleene(x, {}) == Free ==> Kleene(t, {}) == Free)
            && forall c :: Sat(c, t) <==> !Sat(c, x)
  {
    var t := Combo("", NotOf, "", [x], None, "");
    assert t.parts[0] == x;
    assert KleeneAll([x], {}) == [Kleene(x, {})];
  }

  lemma ConjunctionOf(x: Src, y: Src)
    requires Legal(x) && Legal(y) && Recognised(x) && Recognised(y)
    requires Fits(x) && Fits(y) && !Cut(x) && !Cut(y)
    ensures var t := Combo("", AllOf, "", [x, y], None, "");
            && Legal(t) && Recognised(t)
            && (Kleene(x, {}) == Kleene(y, {}) == Free ==> Kleene(t, {}) == Free)
            && forall c :: Sat(c, t) ==> Sat(c, x) && Sat(c, y)
  {
    var t := Combo("", AllOf, "", [x, y], None, "");
    assert t.parts[0] == x && t.parts[1] == y;
    var held := KleeneAll([x, y], {});
    assert held[0] == Kleene(x, {}) && held[1] == Kleene(y, {});
  }

  lemma PlainValueFits(s: Src)
    requires s.Pair? && s.trail == "" && forall i :: 0 <= i < |s.value| ==> s.value[i] !in "(),"
    ensures Fits(s) && !Cut(s)
  {
    SplitTop.PlainIsEven(s.value);
    EvenIsInside(s.value);
    SplitTop.PlainIsEven(s.value + "\"");
    assert SplitTop.Level(s.value + "\"", 0) && "\"" + s.trail == "\"";
    SplitTop.OnePiece(s.value + "\"", 0);
  }

  // So is naming one key twice: no coherent build has two operating systems, and the
  // evaluator answers Free.
  lemma TwoValuesAreKept()
    ensures var t := Combo("", AllOf, "", [Pair("", "target_os", "", "", "none", ""),
                                           Pair("", "target_os", "", "", "linux", "")], None, "");
            && Legal(t) && Recognised(t)
            && CfgHolds(Render(t), {}) == Free
            && forall c :: Coherent(c) ==> !Sat(c, t)
  {
    var x, y := Pair("", "target_os", "", "", "none", ""), Pair("", "target_os", "", "", "linux", "");
    PlainPair(x);
    PlainPair(y);
    ConjunctionOf(x, y);
    ReadsEverySpelling(Combo("", AllOf, "", [x, y], None, ""), {});
    assert SameKey(Setting(x.key, x.value), Setting(y.key, y.value)) && |x.value| != |y.value|;
  }

  lemma PlainPair(s: Src)
    requires s.Pair? && s.lead == s.g1 == s.g2 == s.trail == "" && s.key == "target_os" && Ident(s.value)
    ensures Legal(s) && Recognised(s) && Fits(s) && !Cut(s) && Kleene(s, {}) == Free
  {
    forall i | 0 <= i < |s.value| ensures s.value[i] !in "(),\"" { assert IdentChar(s.value[i]); }
    PlainValueFits(s);
    assert |s.key| != |"feature"|;
    forall i | 0 <= i < |s.key| ensures IdentChar(s.key[i]) {}
  }

  // And so is a fixed name: `cfg(false)` holds in no coherent build, `cfg(true)` in
  // every one, and the evaluator answers Free to both.
  lemma FixedNamesAreFree(name: string)
    requires Bare(name) in FIXED
    ensures var t := Flag("", name, "");
            && Legal(t) && Recognised(t) && ReadOnce(t) && !Untied(Atoms(t))
            && CfgHolds(Render(t), {}) == Free
            && forall c :: Coherent(c) ==> (Sat(c, t) <==> name == "true")
  {
    var t := Flag("", name, "");
    assert name == "true" || name == "false";
    assert "true" != "false" by { assert |"true"| != |"false"|; }
    assert Ident("true") && Ident("false");
    ReadsEverySpelling(t, {});
    assert name[0] != 'k' && name[1] != 'e';
    assert name !in NEVER_SHIPPED;
    assert Bare(name) in Atoms(t);
  }
}
