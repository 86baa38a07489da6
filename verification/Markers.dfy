// Marker comments in a page of text: where they occur, and why an occurrence
// cannot straddle a seam between two pieces.
module Markers {
  import opened Text

  // An angle-bracketed marker: `<` opens it, `>` closes it, neither occurs between.
  predicate Marker(m: string) {
    && |m| >= 2 && m[0] == '<' && m[|m| - 1] == '>'
    && forall i :: 0 < i < |m| - 1 ==> m[i] != '<' && m[i] != '>'
  }

  // Python's `str.count`: occurrences found from left to right without overlap.
  function Count(s: string, m: string, i: nat): nat
    requires m != ""
    decreases |s| - i
  {
    var f := Find(s, m, i);
    if f.None? then 0 else 1 + Count(s, m, f.value + |m|)
  }

  ghost predicate Absent(s: string, m: string) {
    forall i: nat :: !At(s, i, m)
  }

  ghost predicate Once(s: string, m: string, i: nat) {
    At(s, i, m) && forall j: nat :: At(s, j, m) ==> j == i
  }

  // ---------------------------------------------------------------- characters

  // Where a marker stands, `<` and `>` are its first and last characters only.
  lemma Brackets(s: string, i: nat, m: string)
    requires Marker(m) && At(s, i, m)
    ensures s[i] == '<' && s[i + |m| - 1] == '>'
    ensures forall k :: i < k < i + |m| ==> s[k] != '<'
    ensures forall k :: i <= k < i + |m| - 1 ==> s[k] != '>'
  {
    AtChars(s, i, m);
    forall k | i <= k < i + |m| ensures s[k] == m[k - i] { assert s[i + (k - i)] == m[k - i]; }
  }

  // Two markers at different places do not overlap, and at one place are equal.
  lemma NoOverlap(s: string, i: nat, m: string, j: nat, n: string)
    requires Marker(m) && Marker(n) && At(s, i, m) && At(s, j, n) && i <= j
    ensures i == j ==> m == n
    ensures i < j ==> i + |m| <= j
  {
    Brackets(s, i, m);
    Brackets(s, j, n);
    if i == j && |m| == |n| { assert m == s[i..i + |m|] == n; }
  }

  lemma CountZero(s: string, m: string, i: nat)
    requires m != ""
    ensures Count(s, m, i) == 0 <==> forall j :: i <= j ==> !At(s, j, m)
  {
    FindIsFirst(s, m, i);
  }

  // For a marker, counting without overlap is counting occurrences.
  lemma CountOne(s: string, m: string)
    requires Marker(m)
    ensures Count(s, m, 0) == 1 <==> Find(s, m, 0).Some? && Once(s, m, Find(s, m, 0).value)
  {
    var f := Find(s, m, 0);
    FindIsFirst(s, m, 0);
    if f.Some? {
      CountZero(s, m, f.value + |m|);
      forall j: nat | At(s, j, m) && j < f.value + |m| ensures j == f.value {
        NoOverlap(s, f.value, m, j, m);
      }
    }
  }

  lemma OnceIsFound(s: string, m: string, i: nat, start: nat)
    requires Once(s, m, i)
    ensures Find(s, m, start) == if start <= i then Some(i) else None
  {
    FindIsFirst(s, m, start);
  }

  // --------------------------------------------------------------------- seams

  // A place where no marker can lie across: something closes before it, or opens
  // after it.
  predicate Seam(a: string, b: string) {
    a == "" || b == "" || a[|a| - 1] == '>' || b[0] == '<'
  }

  lemma NoStraddle(a: string, b: string, i: nat, m: string)
    requires Seam(a, b) && Marker(m) && At(a + b, i, m)
    ensures i + |m| <= |a| || |a| <= i
  {
    Brackets(a + b, i, m);
    assert b != "" ==> (a + b)[|a|] == b[0];
    assert a != "" ==> (a + b)[|a| - 1] == a[|a| - 1];
  }

  lemma AtLeft(a: string, b: string, i: nat, m: string)
    requires i + |m| <= |a|
    ensures At(a + b, i, m) <==> At(a, i, m)
  {
    assert (a + b)[i..i + |m|] == a[i..i + |m|];
  }

  lemma AtRight(a: string, b: string, i: nat, m: string)
    requires i >= |a|
    ensures At(a + b, i, m) <==> At(b, i - |a|, m)
  {
    if i + |m| <= |a + b| { assert (a + b)[i..i + |m|] == b[i - |a|..i - |a| + |m|]; }
  }

  lemma AbsentConcat(a: string, b: string, m: string)
    requires Seam(a, b) && Marker(m) && Absent(a, m) && Absent(b, m)
    ensures Absent(a + b, m)
  {
    forall i: nat ensures !At(a + b, i, m) {
      if At(a + b, i, m) {
        NoStraddle(a, b, i, m);
        if i + |m| <= |a| { AtLeft(a, b, i, m); } else { AtRight(a, b, i, m); }
      }
    }
  }

  lemma OnceLeft(a: string, b: string, m: string, i: nat)
    requires Seam(a, b) && Marker(m) && Once(a, m, i) && Absent(b, m)
    ensures Once(a + b, m, i)
  {
    AtLeft(a, b, i, m);
    forall j: nat | At(a + b, j, m) ensures j == i {
      NoStraddle(a, b, j, m);
      if j + |m| <= |a| { AtLeft(a, b, j, m); } else { AtRight(a, b, j, m); }
    }
  }

  lemma OnceRight(a: string, b: string, m: string, i: nat)
    requires Seam(a, b) && Marker(m) && Absent(a, m) && Once(b, m, i)
    ensures Once(a + b, m, |a| + i)
  {
    AtRight(a, b, |a| + i, m);
    forall j: nat | At(a + b, j, m) ensures j == |a| + i {
      NoStraddle(a, b, j, m);
      if j + |m| <= |a| { AtLeft(a, b, j, m); } else { AtRight(a, b, j, m); }
    }
  }

  // A marker occurs in itself once, and in no other marker.
  lemma OnceInItself(m: string)
    requires Marker(m)
    ensures Once(m, m, 0)
  {
    assert m[0..|m|] == m;
  }

  lemma AbsentInOther(m: string, n: string)
    requires Marker(m) && Marker(n) && m != n
    ensures Absent(n, m)
  {
    forall i: nat ensures !At(n, i, m) {
      if At(n, i, m) {
        assert n[0..|n|] == n && At(n, 0, n);
        NoOverlap(n, 0, n, i, m);
      }
    }
  }
}
