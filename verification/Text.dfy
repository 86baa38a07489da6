// Strings as Python and Rust see them: whitespace trimming, prefix tests and
// joining. Every other module that reasons about characters builds on these.
module Text {

  datatype Option<+T> = None | Some(value: T)

  // What Python's `str.strip` removes: every character for which `isspace` holds.
  predicate PySpace(c: char) {
    || '\t' <= c <= '\r' || '\U{1C}' <= c <= ' ' || c == '\U{85}' || c == '\U{A0}'
    || c == '\U{1680}' || '\U{2000}' <= c <= '\U{200A}' || c == '\U{2028}' || c == '\U{2029}'
    || c == '\U{202F}' || c == '\U{205F}' || c == '\U{3000}'
  }

  // What Rust's `str::trim` removes: the Unicode White_Space property.
  predicate RustSpace(c: char) {
    PySpace(c) && !('\U{1C}' <= c <= '\U{1F}')
  }

  ghost predicate AllIn(sp: char -> bool, s: string) {
    forall i :: 0 <= i < |s| ==> sp(s[i])
  }

  // Nonempty, and neither end is a character that trimming removes.
  predicate Trimmed(sp: char -> bool, s: string) {
    s != "" && !sp(s[0]) && !sp(s[|s| - 1])
  }

  function StripLeft(sp: char -> bool, s: string): string {
    if s != "" && sp(s[0]) then StripLeft(sp, s[1..]) else s
  }

  function StripRight(sp: char -> bool, s: string): string {
    if s != "" && sp(s[|s| - 1]) then StripRight(sp, s[..|s| - 1]) else s
  }

  function Strip(sp: char -> bool, s: string): (r: string)
    ensures |r| <= |s|
    ensures r == "" || Trimmed(sp, r)
  {
    StripLeftShape(sp, s);
    StripRightShape(sp, StripLeft(sp, s));
    StripRight(sp, StripLeft(sp, s))
  }

  lemma {:induction false} StripLeftShape(sp: char -> bool, s: string)
    ensures |StripLeft(sp, s)| <= |s|
    ensures StripLeft(sp, s) == "" || !sp(StripLeft(sp, s)[0])
  {
    if s != "" && sp(s[0]) { StripLeftShape(sp, s[1..]); }
  }

  lemma {:induction false} StripRightShape(sp: char -> bool, s: string)
    ensures |StripRight(sp, s)| <= |s| && StripRight(sp, s) == s[..|StripRight(sp, s)|]
    ensures StripRight(sp, s) == "" || !sp(StripRight(sp, s)[|StripRight(sp, s)| - 1])
  {
    if s != "" && sp(s[|s| - 1]) { StripRightShape(sp, s[..|s| - 1]); }
  }

  // What is removed is all padding.
  lemma {:induction false} StripLeftSplits(sp: char -> bool, s: string) returns (pad: string)
    ensures AllIn(sp, pad) && s == pad + StripLeft(sp, s)
  {
    pad := "";
    if s != "" && sp(s[0]) {
      var rest := StripLeftSplits(sp, s[1..]);
      pad := [s[0]] + rest;
      assert s == [s[0]] + s[1..];
    }
  }

  // The space characters of Unicode, one by one.
  lemma SpacesAre(c: char)
    ensures RustSpace(c) <==>
              c in "\t\n\U{0B}\U{0C}\r \U{85}\U{A0}\U{1680}\U{2000}\U{2001}\U{2002}\U{2003}\U{2004}\U{2005}" +
                   "\U{2006}\U{2007}\U{2008}\U{2009}\U{200A}\U{2028}\U{2029}\U{202F}\U{205F}\U{3000}"
    ensures PySpace(c) <==> RustSpace(c) || c in "\U{1C}\U{1D}\U{1E}\U{1F}"
  {}

  lemma {:induction false} StripLeftPad(sp: char -> bool, pad: string, s: string)
    requires AllIn(sp, pad)
    ensures StripLeft(sp, pad + s) == StripLeft(sp, s)
  {
    if pad == "" {
      assert pad + s == s;
    } else {
      assert (pad + s)[1..] == pad[1..] + s;
      StripLeftPad(sp, pad[1..], s);
    }
  }

  lemma {:induction false} StripRightPad(sp: char -> bool, s: string, pad: string)
    requires AllIn(sp, pad)
    ensures StripRight(sp, s + pad) == StripRight(sp, s)
  {
    if pad == "" {
      assert s + pad == s;
    } else {
      var t := s + pad;
      assert t[..|t| - 1] == s + pad[..|pad| - 1];
      StripRightPad(sp, s, pad[..|pad| - 1]);
    }
  }

  // Trimming removes exactly the padding put around a trimmed core.
  lemma StripPadded(sp: char -> bool, lead: string, core: string, trail: string)
    requires AllIn(sp, lead) && AllIn(sp, trail)
    requires core == "" || Trimmed(sp, core)
    ensures Strip(sp, lead + core + trail) == core
  {
    assert lead + core + trail == lead + (core + trail);
    StripLeftPad(sp, lead, core + trail);
    if core == "" {
      assert core + trail == trail == trail + "";
      StripLeftPad(sp, trail, "");
    } else {
      StripRightPad(sp, core, trail);
    }
  }

  predicate StartsWith(s: string, p: string) {
    |p| <= |s| && s[..|p|] == p
  }

  predicate EndsWith(s: string, p: string) {
    |p| <= |s| && s[|s| - |p|..] == p
  }

  // `name = "value"`, matched against the whole text, with `sp` around the equals sign
  // and no quote in the value.
  function Assigned(name: string, sp: char -> bool, text: string): Option<string> {
    if !StartsWith(text, name) then None else
    var a := StripLeft(sp, text[|name|..]);
    if a == "" || a[0] != '=' then None else
    var b := StripLeft(sp, a[1..]);
    if |b| < 3 || b[0] != '"' || b[|b| - 1] != '"' || '"' in b[1..|b| - 1] then None
    else Some(b[1..|b| - 1])
  }

  ghost predicate Assigns(text: string, name: string, g1: string, g2: string, value: string) {
    value != "" && '"' !in value && text == name + g1 + "=" + g2 + "\"" + value + "\""
  }

  lemma AssignsIsRead(text: string, name: string, sp: char -> bool, g1: string, g2: string, value: string)
    requires Assigns(text, name, g1, g2, value) && AllIn(sp, g1) && AllIn(sp, g2) && !sp('=') && !sp('"')
    ensures Assigned(name, sp, text) == Some(value)
  {
    var b := "\"" + value + "\"";
    var a := "=" + (g2 + b);
    assert text[..|name|] == name && text[|name|..] == g1 + a;
    StripLeftPad(sp, g1, a);
    assert a[1..] == g2 + b;
    StripLeftPad(sp, g2, b);
    assert b[1..|b| - 1] == value;
  }

  lemma ReadAssigns(text: string, name: string, sp: char -> bool, value: string) returns (g1: string, g2: string)
    requires Assigned(name, sp, text) == Some(value)
    ensures AllIn(sp, g1) && AllIn(sp, g2) && Assigns(text, name, g1, g2, value)
  {
    var rest := text[|name|..];
    g1 := StripLeftSplits(sp, rest);
    var a := StripLeft(sp, rest);
    g2 := StripLeftSplits(sp, a[1..]);
    var b := StripLeft(sp, a[1..]);
    QuotedBack(b, value);
    AssignsBack(text, name, g1, a, g2, b, value);
  }

  lemma QuotedBack(b: string, value: string)
    requires |b| >= 3 && b[0] == '"' && b[|b| - 1] == '"' && value == b[1..|b| - 1]
    ensures b == "\"" + value + "\""
  {}

  lemma AssignsBack(text: string, name: string, g1: string, a: string, g2: string, b: string, value: string)
    requires StartsWith(text, name) && text[|name|..] == g1 + a && a != "" && a[0] == '=' && a[1..] == g2 + b
    requires b == "\"" + value + "\"" && value != "" && '"' !in value
    ensures Assigns(text, name, g1, g2, value)
  {
    assert a == "=" + a[1..] && text == text[..|name|] + text[|name|..];
    AssignsText(name, g1, g2, value);
  }

  lemma AssignsText(name: string, g1: string, g2: string, value: string)
    ensures name + (g1 + ("=" + (g2 + ("\"" + value + "\"")))) == name + g1 + "=" + g2 + "\"" + value + "\""
  {}

  // `p` stands in `s` at offset `i`.
  predicate At(s: string, i: int, p: string) {
    0 <= i && i + |p| <= |s| && s[i..i + |p|] == p
  }

  lemma AtChars(s: string, i: nat, p: string)
    requires At(s, i, p)
    ensures forall k :: 0 <= k < |p| ==> s[i + k] == p[k]
  {
    forall k | 0 <= k < |p| ensures s[i + k] == p[k] {
      assert s[i..i + |p|][k] == s[i + k];
    }
  }

  // `str.find` from offset `i` on: the first place, or None.
  function Find(s: string, p: string, i: nat): (r: Option<nat>)
    ensures r.Some? ==> i <= r.value && At(s, r.value, p)
    decreases |s| - i
  {
    if At(s, i, p) then Some(i) else if i >= |s| then None else Find(s, p, i + 1)
  }

  lemma {:induction false} FindIsFirst(s: string, p: string, i: nat)
    ensures forall j :: i <= j && At(s, j, p) ==> Find(s, p, i).Some? && Find(s, p, i).value <= j
    decreases |s| - i
  {
    if !At(s, i, p) && i < |s| { FindIsFirst(s, p, i + 1); }
  }

  // `str.index` and `str::find` of one character.
  function IndexOf(s: string, c: char): (r: Option<nat>)
    ensures r.Some? ==> r.value < |s| && s[r.value] == c && c !in s[..r.value]
    ensures r.None? ==> c !in s
  {
    if s == "" then None
    else if s[0] == c then Some(0)
    else match IndexOf(s[1..], c) case Some(i) => Some(i + 1) case None => None
  }

  lemma {:induction false} IndexOfIs(s: string, c: char, i: nat)
    requires i < |s| && s[i] == c && c !in s[..i]
    ensures IndexOf(s, c) == Some(i)
  {
    if i > 0 {
      assert s[..i][0] == s[0];
      assert forall x :: x in s[1..][..i - 1] ==> x in s[..i];
      IndexOfIs(s[1..], c, i - 1);
    }
  }

  function Join(parts: seq<string>, sep: string): string {
    if parts == [] then ""
    else if |parts| == 1 then parts[0]
    else parts[0] + sep + Join(parts[1..], sep)
  }

  function Concat<T>(parts: seq<seq<T>>): seq<T> {
    if parts == [] then [] else parts[0] + Concat(parts[1..])
  }
}
