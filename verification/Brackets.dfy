// Where an attribute ends and what it says: brackets are matched on the copy with
// literals and comments blanked, the body is read out of the copy that keeps literals.
module Brackets {
  import opened Text
  import opened Blank
  import opened Relex

  function Step(c: char): int {
    if c == '[' then 1 else if c == ']' then -1 else 0
  }

  // One past the place where the depth is back at zero, or the end of the text.
  function Closing(deep: string, i: nat, depth: int): (stop: nat)
    requires i <= |deep|
    ensures i <= stop <= |deep|
    decreases |deep| - i
  {
    if i == |deep| then i else
    var d := depth + Step(deep[i]);
    if d == 0 then i + 1 else Closing(deep, i + 1, d)
  }

  method AttrEnd(deep: string, bracket: nat) returns (index: nat)
    requires bracket <= |deep|
    ensures index == Closing(deep, bracket, 0)
  {
    var depth := 0;
    index := bracket;
    while index < |deep|
      invariant bracket <= index <= |deep|
      invariant Closing(deep, index, depth) == Closing(deep, bracket, 0)
    {
      depth := depth + Step(deep[index]);
      index := index + 1;
      if depth == 0 { return; }
    }
  }

  // ----------------------------------------------------------- seen from the text

  function DeepOf(text: string): (deep: string)
    ensures |deep| == |text| && forall i :: 0 <= i < |text| ==> deep[i] == DeepChar(text, i)
  {
    seq(|text|, i requires 0 <= i < |text| => DeepChar(text, i))
  }

  // Brackets in code between two offsets: those in comments and literals count for
  // nothing.
  ghost function CodeNet(text: string, lo: nat, hi: nat): int
    requires lo <= hi <= |text|
  {
    if lo == hi then 0 else
    CodeNet(text, lo, hi - 1) + if Classify(text, 0, hi - 1) == Code then Step(text[hi - 1]) else 0
  }

  // The first place after `b` where the code brackets since `b` balance.
  ghost predicate Closes(text: string, b: nat, stop: nat) {
    b < stop <= |text| && CodeNet(text, b, stop) == 0 && forall j :: b < j < stop ==> CodeNet(text, b, j) != 0
  }

  lemma {:induction false} ClosingIsFirst(text: string, b: nat, i: nat, depth: int)
    requires b <= i <= |text| && depth == CodeNet(text, b, i)
    requires forall j :: b < j <= i ==> CodeNet(text, b, j) != 0
    ensures var stop := Closing(DeepOf(text), i, depth);
            && (forall j :: b < j < stop ==> CodeNet(text, b, j) != 0)
            && (i < |text| ==> i < stop)
            && (i < stop ==> CodeNet(text, b, stop) == 0 || stop == |text|)
    decreases |text| - i
  {
    if i < |text| {
      var d := depth + Step(DeepOf(text)[i]);
      assert CodeNet(text, b, i + 1) == d;
      if d != 0 { ClosingIsFirst(text, b, i + 1, d); }
    }
  }

  // The scan stops at the matching bracket of the text's own code, exactly when there
  // is one, and at the end of the text otherwise.
  lemma AttrEndMatches(text: string, b: nat)
    requires b < |text|
    ensures var stop := Closing(DeepOf(text), b, 0);
            && (forall k: nat :: Closes(text, b, k) ==> stop == k)
            && (Closes(text, b, stop) || (stop == |text| && forall k: nat :: !Closes(text, b, k)))
  {
    var stop := Closing(DeepOf(text), b, 0);
    ClosingIsFirst(text, b, b, 0);
    forall k: nat | Closes(text, b, k) ensures stop == k {}
  }

  // -------------------------------------------------------------------- the body

  function Last(s: string, c: char): (r: Option<nat>)
    ensures r.Some? ==> r.value < |s| && s[r.value] == c && c !in s[r.value + 1..]
    ensures r.None? ==> c !in s
  {
    if s == "" then None
    else if s[|s| - 1] == c then Some(|s| - 1)
    else Last(s[..|s| - 1], c)
  }

  // Between the first opening and the last closing bracket; None is a ValueError. A
  // closing bracket before the opening one leaves nothing.
  function AttrBody(source: string): Option<string> {
    var i, j := IndexOf(source, '['), Last(source, ']');
    if i.None? || j.None? then None
    else Some(if i.value < j.value then Strip(PySpace, source[i.value + 1..j.value]) else "")
  }

  // Until it closes, the depth stays positive, so what closes it is a `]` of the code.
  lemma {:induction false} OpenStaysPositive(text: string, b: nat, stop: nat, j: nat)
    requires Closes(text, b, stop) && text[b] == '[' && Classify(text, 0, b) == Code && b < j < stop
    ensures CodeNet(text, b, j) > 0
  {
    if j == b + 1 { assert CodeNet(text, b, b) == 0; } else { OpenStaysPositive(text, b, stop, j - 1); }
  }

  lemma ClosedByBracket(text: string, b: nat, stop: nat)
    requires Closes(text, b, stop) && text[b] == '[' && Classify(text, 0, b) == Code
    ensures b + 1 < stop && text[stop - 1] == ']' && Classify(text, 0, stop - 1) == Code
  {
    assert CodeNet(text, b, b) == 0 && CodeNet(text, b, b + 1) == 1;
    OpenStaysPositive(text, b, stop, stop - 1);
  }

  // For an attribute that closes, the two copies together give what stands between
  // its brackets in the text, comments blanked and literals whole, whatever brackets
  // those hold.
  lemma AttributeIsRead(text: string, start: nat, b: nat, stop: nat)
    requires start <= b && Closes(text, b, stop) && text[b] == '[' && Classify(text, 0, b) == Code
    requires forall i :: start <= i < b ==> text[i] != '['
    ensures b + 1 < stop && Closing(DeepOf(text), b, 0) == stop
    ensures AttrBody(PlainOf(text)[start..stop]) == Some(Strip(PySpace, PlainOf(text)[b + 1..stop - 1]))
  {
    AttrEndMatches(text, b);
    ClosedByBracket(text, b, stop);
    var plain := PlainOf(text);
    forall i | start <= i < b ensures plain[i] != '[' { assert plain[i] == PlainChar(text, i); }
    assert plain[b] == '[' && plain[stop - 1] == ']';
    BodyBetween(plain, start, b, stop);
  }

  lemma BodyBetween(plain: string, start: nat, b: nat, stop: nat)
    requires start <= b && b + 1 < stop <= |plain| && plain[b] == '[' && plain[stop - 1] == ']'
    requires forall i :: start <= i < b ==> plain[i] != '['
    ensures AttrBody(plain[start..stop]) == Some(Strip(PySpace, plain[b + 1..stop - 1]))
  {
    var source, o := plain[start..stop], b - start;
    assert forall i :: 0 <= i < o ==> source[i] != '[';
    IndexOfIs(source, '[', o);
    assert source[|source| - 1] == ']' && Last(source, ']') == Some(|source| - 1);
    assert source[o + 1..|source| - 1] == plain[b + 1..stop - 1];
  }
}
