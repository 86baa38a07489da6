// Which features a firmware image can be built with: a fixed point over the
// manifests reached from `firmware`. Iteration order is left open everywhere the
// source sorts, so the result is shown not to depend on it.
module Features {
  import opened Text

  // Non-dev dependencies with the features each edge asks for, and the
  // `[features]` table: name -> what it enables.
  datatype Manifest = Manifest(deps: map<string, seq<string>>, features: map<string, seq<string>>)

  function AfterLastSlash(s: string): string {
    if '/' !in s then s else AfterLastSlash(s[1..])
  }

  predicate Question(c: char) { c == '?' }

  // The feature an enablement names: `dep:x`, `crate/x` and `crate?/x` are all `x`.
  function Word(target: string): string {
    var bare := if StartsWith(target, "dep:") then target[4..] else target;
    StripLeft(Question, AfterLastSlash(bare))
  }

  lemma {:induction false} SlashCuts(c: string, x: string)
    requires '/' !in x
    ensures AfterLastSlash(x) == x && AfterLastSlash(c + "/" + x) == x
  {
    var s := c + "/" + x;
    assert s[|c|] == '/';
    if c == "" {
      assert s[1..] == x;
      assert AfterLastSlash(s) == AfterLastSlash(x);
    } else {
      assert s[1..] == c[1..] + "/" + x;
      SlashCuts(c[1..], x);
    }
  }

  // What the spellings of an enablement name: the feature after the last slash,
  // without the question marks of a weak one; and `dep:` in front is dropped.
  lemma WordIs(x: string, c: string, marks: string)
    requires '/' !in x && x != "" && x[0] != '?' && forall i :: 0 <= i < |marks| ==> marks[i] == '?'
    ensures Word(c + "/" + (marks + x)) == x
    ensures Word("dep:" + (marks + x)) == x
    ensures !StartsWith(marks + x, "dep:") ==> Word(marks + x) == x
  {
    StripLeftPad(Question, marks, x);
    SlashCuts(c, marks + x);
    var t := c + "/" + (marks + x);
    if StartsWith(t, "dep:") && |c| >= 4 {
      assert t[4..] == c[4..] + "/" + (marks + x);
      SlashCuts(c[4..], marks + x);
    }
    assert |c| < 4 <= |t| ==> t[..4][|c|] == '/' && '/' !in "dep:";
    assert ("dep:" + (marks + x))[4..] == marks + x && ("dep:" + (marks + x))[..4] == "dep:";
  }

  function Words(enables: seq<string>): set<string> {
    set i | 0 <= i < |enables| && Word(enables[i]) != "" :: Word(enables[i])
  }

  function Requested(m: Manifest): set<string> {
    set d, f | d in m.deps && f in m.deps[d] :: f
  }

  function Table(tables: map<string, Manifest>, name: string): Manifest {
    if name in tables then tables[name] else Manifest(map[], map[])
  }

  // ------------------------------------------------------------- specification

  ghost predicate KeyClosed(m: Manifest, fs: set<string>) {
    forall k :: k in m.features && k in fs ==> Words(m.features[k]) <= fs
  }

  ghost predicate DepClosed(tables: map<string, Manifest>, m: Manifest, cs: set<string>) {
    forall d :: d in m.deps && d in tables ==> d in cs
  }

  // A pair (crates, features) that holds firmware with its own features and is
  // closed under dependency edges, under what a reached crate asks for, and under
  // what an enabled feature enables.
  ghost predicate Closed(tables: map<string, Manifest>, cs: set<string>, fs: set<string>) {
    && "firmware" in cs
    && Table(tables, "firmware").features.Keys <= fs
    && (forall c :: c in cs ==> DepClosed(tables, Table(tables, c), cs))
    && (forall c :: c in cs ==> Requested(Table(tables, c)) <= fs)
    && (forall c :: c in cs ==> KeyClosed(Table(tables, c), fs))
  }

  // The same, spelled out on the manifests.
  lemma ClosedMeans(tables: map<string, Manifest>, cs: set<string>, fs: set<string>)
    ensures Closed(tables, cs, fs) <==>
              && "firmware" in cs
              && ("firmware" in tables ==> forall k :: k in tables["firmware"].features ==> k in fs)
              && (forall c, d :: c in cs && c in tables && d in tables[c].deps && d in tables ==> d in cs)
              && (forall c, d, f :: c in cs && c in tables && d in tables[c].deps && f in tables[c].deps[d] ==> f in fs)
              && (forall c, k, i :: c in cs && c in tables && k in tables[c].features && k in fs
                                    && 0 <= i < |tables[c].features[k]| && Word(tables[c].features[k][i]) != ""
                                    ==> Word(tables[c].features[k][i]) in fs)
  {
    if Closed(tables, cs, fs) {
      forall c, k, i | c in cs && c in tables && k in tables[c].features && k in fs
                       && 0 <= i < |tables[c].features[k]| && Word(tables[c].features[k][i]) != ""
        ensures Word(tables[c].features[k][i]) in fs
      {
        assert KeyClosed(Table(tables, c), fs);
        assert Word(tables[c].features[k][i]) in Words(tables[c].features[k]);
      }
      forall c, d | c in cs && c in tables && d in tables[c].deps && d in tables ensures d in cs {
        assert DepClosed(tables, Table(tables, c), cs);
      }
      forall c, d, f | c in cs && c in tables && d in tables[c].deps && f in tables[c].deps[d] ensures f in fs {
        assert f in Requested(Table(tables, c));
      }
    }
  }

  // ------------------------------------------------------------ enablement lists

  function AllWords(m: Manifest): set<string> {
    set k, w | k in m.features && w in Words(m.features[k]) :: w
  }

  method EnableKey(enables: seq<string>, features: set<string>) returns (out: set<string>)
    ensures out == features + Words(enables)
  {
    out := features;
    for i := 0 to |enables|
      invariant out == features + Words(enables[..i])
    {
      var word := Word(enables[i]);
      WordsGrow(enables, i);
      if word != "" && word !in out { out := out + {word}; }
    }
    assert enables[..|enables|] == enables;
  }

  lemma WordsGrow(enables: seq<string>, i: nat)
    requires i < |enables|
    ensures Words(enables[..i + 1]) == Words(enables[..i]) + if Word(enables[i]) != "" then {Word(enables[i])} else {}
  {
    var a, b := enables[..i], enables[..i + 1];
    forall w | w in Words(b) ensures w in Words(a) || (w == Word(enables[i]) && w != "") {
      var j :| 0 <= j < |b| && Word(b[j]) == w && w != "";
      if j < i { assert a[j] == b[j]; }
    }
    forall w | w in Words(a) ensures w in Words(b) {
      var j :| 0 <= j < |a| && Word(a[j]) == w && w != "";
      assert b[j] == a[j];
    }
    if Word(enables[i]) != "" { assert b[i] == enables[i]; }
  }

  method EnableCrate(m: Manifest, features: set<string>) returns (out: set<string>)
    ensures features <= out <= features + AllWords(m)
    ensures out == features ==> KeyClosed(m, features)
    ensures forall fs :: features <= fs && KeyClosed(m, fs) ==> out <= fs
  {
    out := features;
    var todo := m.features.Keys;
    while todo != {}
      invariant todo <= m.features.Keys
      invariant features <= out <= features + AllWords(m)
      invariant out == features ==>
                  forall k :: k in m.features.Keys - todo && k in features ==> Words(m.features[k]) <= features
      invariant forall fs :: features <= fs && KeyClosed(m, fs) ==> out <= fs
    {
      var k :| k in todo;
      todo := todo - {k};
      if k in out {
        assert Words(m.features[k]) <= AllWords(m) by {
          assert forall w :: w in Words(m.features[k]) ==> w in AllWords(m);
        }
        out := EnableKey(m.features[k], out);
      }
    }
  }

  ghost function Universe(tables: map<string, Manifest>): set<string> {
    (set c, w | c in tables && w in AllWords(tables[c]) :: w) +
    (set c, w | c in tables && w in Requested(tables[c]) :: w) +
    Table(tables, "firmware").features.Keys
  }

  lemma UniverseHolds(tables: map<string, Manifest>, c: string)
    ensures AllWords(Table(tables, c)) <= Universe(tables) && Requested(Table(tables, c)) <= Universe(tables)
  {
    if c in tables {
      forall w | w in AllWords(tables[c]) ensures w in Universe(tables) {}
      forall w | w in Requested(tables[c]) ensures w in Universe(tables) {}
    } else {
      assert AllWords(Table(tables, c)) == {} && Requested(Table(tables, c)) == {};
    }
  }

  method EnablePass(tables: map<string, Manifest>, crates: set<string>, features: set<string>)
    returns (out: set<string>)
    requires features <= Universe(tables)
    ensures features <= out <= Universe(tables)
    ensures out == features ==> forall c :: c in crates ==> KeyClosed(Table(tables, c), features)
    ensures forall fs :: features <= fs && (forall c :: c in crates ==> KeyClosed(Table(tables, c), fs)) ==> out <= fs
  {
    out := features;
    var todo := crates;
    while todo != {}
      invariant todo <= crates
      invariant features <= out <= Universe(tables)
      invariant out == features ==> forall c :: c in crates - todo ==> KeyClosed(Table(tables, c), features)
      invariant forall fs ::
                  features <= fs && (forall c :: c in crates ==> KeyClosed(Table(tables, c), fs)) ==> out <= fs
    {
      var c :| c in todo;
      todo := todo - {c};
      UniverseHolds(tables, c);
      out := EnableCrate(Table(tables, c), out);
    }
  }

  // ------------------------------------------------------------ dependency edges

  // What both growing sets keep at every moment of the loop.
  ghost predicate Grown(tables: map<string, Manifest>, cs: set<string>, fs: set<string>) {
    && "firmware" in cs && cs <= tables.Keys + {"firmware"}
    && Table(tables, "firmware").features.Keys <= fs <= Universe(tables)
    && (forall c :: c in cs ==> Requested(Table(tables, c)) <= fs)
    && Least(tables, cs, fs)
  }

  ghost predicate Least(tables: map<string, Manifest>, cs: set<string>, fs: set<string>) {
    forall cs', fs' :: Closed(tables, cs', fs') ==> cs <= cs' && fs <= fs'
  }

  lemma GrowCrate(tables: map<string, Manifest>, cs: set<string>, fs: set<string>, c: string, d: string)
    requires Grown(tables, cs, fs) && c in cs && d in Table(tables, c).deps && d in tables
    ensures Grown(tables, cs + {d}, fs + Requested(tables[d]))
  {
    UniverseHolds(tables, d);
    var more := fs + Requested(tables[d]);
    forall x | x in cs + {d} ensures Requested(Table(tables, x)) <= more {}
    forall cs', fs' | Closed(tables, cs', fs') ensures cs + {d} <= cs' && more <= fs' {
      assert DepClosed(tables, Table(tables, c), cs');
      assert Requested(Table(tables, d)) <= fs';
    }
  }

  method FollowCrate(tables: map<string, Manifest>, c: string, crates: set<string>, features: set<string>)
    returns (cs: set<string>, fs: set<string>)
    requires Grown(tables, crates, features) && c in crates
    ensures Grown(tables, cs, fs) && crates <= cs && features <= fs
    ensures cs == crates ==> fs == features && DepClosed(tables, Table(tables, c), crates)
  {
    cs, fs := crates, features;
    var todo := Table(tables, c).deps.Keys;
    while todo != {}
      invariant todo <= Table(tables, c).deps.Keys
      invariant Grown(tables, cs, fs) && crates <= cs && features <= fs
      invariant cs == crates ==> fs == features
      invariant cs == crates ==> forall d :: d in Table(tables, c).deps.Keys - todo && d in tables ==> d in crates
    {
      var d :| d in todo;
      todo := todo - {d};
      if d in tables && d !in cs {
        GrowCrate(tables, cs, fs, c, d);
        cs, fs := cs + {d}, fs + Requested(tables[d]);
        assert d in cs && d !in crates;
      }
    }
  }

  method FollowPass(tables: map<string, Manifest>, crates: set<string>, features: set<string>)
    returns (cs: set<string>, fs: set<string>)
    requires Grown(tables, crates, features)
    ensures Grown(tables, cs, fs) && crates <= cs && features <= fs
    ensures cs == crates ==> fs == features && forall c :: c in crates ==> DepClosed(tables, Table(tables, c), crates)
  {
    cs, fs := crates, features;
    var todo := crates;
    while todo != {}
      invariant todo <= crates
      invariant Grown(tables, cs, fs) && crates <= cs && features <= fs
      invariant cs == crates ==> fs == features
      invariant cs == crates ==> forall c :: c in crates - todo ==> DepClosed(tables, Table(tables, c), crates)
    {
      var c :| c in todo;
      todo := todo - {c};
      cs, fs := FollowCrate(tables, c, cs, fs);
    }
  }

  // --------------------------------------------------------------- the fixed point

  lemma SmallerMeasure(all: set<string>, a: set<string>, b: set<string>)
    requires a <= b <= all
    ensures |all - b| <= |all - a| && (a != b ==> |all - b| < |all - a|)
  {
    assert all - b <= all - a;
    Subset(all - b, all - a);
    if a != b {
      var x :| x in b && x !in a;
      assert x in all - a && x !in all - b;
      assert all - b <= (all - a) - {x};
      Subset(all - b, (all - a) - {x});
    }
  }

  lemma {:induction false} Subset(a: set<string>, b: set<string>)
    requires a <= b
    ensures |a| <= |b|
  {
    if a != {} {
      var x :| x in a;
      Subset(a - {x}, b - {x});
    }
  }

  lemma StartIsGrown(tables: map<string, Manifest>)
    ensures var m := Table(tables, "firmware"); Grown(tables, {"firmware"}, m.features.Keys + Requested(m))
  {
    UniverseHolds(tables, "firmware");
  }

  lemma EnabledIsGrown(tables: map<string, Manifest>, cs: set<string>, fs: set<string>, out: set<string>)
    requires Grown(tables, cs, fs) && fs <= out <= Universe(tables)
    requires forall f' :: fs <= f' && (forall c :: c in cs ==> KeyClosed(Table(tables, c), f')) ==> out <= f'
    ensures Grown(tables, cs, out)
  {
    forall cs', fs' | Closed(tables, cs', fs') ensures cs <= cs' && out <= fs' {
      assert cs <= cs' && fs <= fs';
    }
  }

  // The least closed pair: what the loop returns contains nothing it need not.
  method ShippableFeatures(tables: map<string, Manifest>) returns (features: set<string>, crates: set<string>)
    ensures Closed(tables, crates, features)
    ensures Least(tables, crates, features)
  {
    var firmware := Table(tables, "firmware");
    features := firmware.features.Keys + Requested(firmware);
    crates := {"firmware"};
    StartIsGrown(tables);
    var changed := true;
    while changed
      invariant Grown(tables, crates, features)
      invariant !changed ==> Closed(tables, crates, features)
      decreases |tables.Keys + {"firmware"} - crates| + |Universe(tables) - features|, changed
    {
      var cs, fs := FollowPass(tables, crates, features);
      var out := EnablePass(tables, cs, fs);
      changed := cs != crates || out != features;
      EnabledIsGrown(tables, cs, fs, out);
      SmallerMeasure(tables.Keys + {"firmware"}, crates, cs);
      SmallerMeasure(Universe(tables), features, out);
      crates, features := cs, out;
    }
  }
}
