// What the two board-file readers make of a line and of a number, as they are written.
module BoardLines {
  import opened Text
  import opened Sizes
  import opened Flash
  import opened Boards
  import opened BoardLaws

  // A value as a board file may write it: bare, or between quotes.
  predicate ValueText(v: string) {
    && Trimmed(RustSpace, v)
    && (('"' !in v && '#' !in v) || (|v| >= 2 && v[0] == v[|v| - 1] == '"' && '"' !in v[1..|v| - 1]))
  }

  predicate KeyText(k: string) {
    Trimmed(RustSpace, k) && k[0] != '[' && '=' !in k && '#' !in k
  }

  // A comment at the end of a line, and the blanks in front of it.
  function Remark(pad: string, comment: Option<string>): string {
    match comment case None => "" case Some(c) => pad + "#" + c
  }

  predicate RemarkText(pad: string, comment: Option<string>) {
    match comment case None => true case Some(c) => c == "" || !RustSpace(c[|c| - 1])
  }

  // ------------------------------------------------------------------- comments

  // Inside or outside quotes after `s`.
  function Quoted(s: string, q: bool): bool {
    if s == "" then q else Quoted(s[1..], if s[0] == '"' then !q else q)
  }

  lemma {:induction false} HashAfter(a: string, b: string, q: bool)
    requires BareHash(a, q) == None
    ensures BareHash(a + b, q) == match BareHash(b, Quoted(a, q)) case None => None case Some(i) => Some(|a| + i)
  {
    if a == "" {
      assert a + b == b;
    } else {
      assert (a + b)[1..] == a[1..] + b;
      HashAfter(a[1..], b, if a[0] == '"' then !q else q);
    }
  }

  lemma {:induction false} PlainText(s: string, q: bool)
    requires '"' !in s && (q || '#' !in s)
    ensures BareHash(s, q) == None && Quoted(s, q) == q
  {
    if s != "" {
      assert s[0] in s && forall x :: x in s[1..] ==> x in s;
      PlainText(s[1..], q);
    }
  }

  lemma {:induction false} QuotedConcat(a: string, b: string, q: bool)
    ensures Quoted(a + b, q) == Quoted(b, Quoted(a, q))
  {
    if a == "" {
      assert a + b == b;
    } else {
      assert (a + b)[1..] == a[1..] + b;
      QuotedConcat(a[1..], b, if a[0] == '"' then !q else q);
    }
  }

  lemma ValueHasNoRemark(v: string)
    requires ValueText(v)
    ensures BareHash(v, false) == None && Quoted(v, false) == false
  {
    if '"' !in v && '#' !in v {
      PlainText(v, false);
    } else {
      var w := v[1..|v| - 1];
      assert v == "\"" + (w + "\"") && ("\"" + (w + "\""))[1..] == w + "\"";
      PlainText(w, true);
      HashAfter(w, "\"", true);
      QuotedConcat(w, "\"", true);
      assert "\""[1..] == "";
      assert BareHash("\"", true) == None && Quoted("\"", true) == false;
    }
  }

  lemma PadIsPlain(pad: string)
    requires AllIn(RustSpace, pad)
    ensures '"' !in pad && '#' !in pad && '=' !in pad
  {
    forall c | c in pad ensures c != '"' && c != '#' && c != '=' {
      var i :| 0 <= i < |pad| && pad[i] == c;
    }
  }

  // Neither blank nor value ends in quotes or hides a comment.
  lemma OpenText(p: string, v: string, pad: string)
    requires AllIn(RustSpace, p) && AllIn(RustSpace, pad) && ValueText(v)
    ensures BareHash(p + v, false) == None && BareHash(p + v + pad, false) == None
    ensures Quoted(p + v + pad, false) == false
  {
    PadIsPlain(p);
    PadIsPlain(pad);
    PlainText(p, false);
    PlainText(pad, false);
    ValueHasNoRemark(v);
    HashAfter(p, v, false);
    QuotedConcat(p, v, false);
    HashAfter(p + v, pad, false);
    QuotedConcat(p + v, pad, false);
  }

  lemma CommentIsCut(body: string, c: string)
    requires BareHash(body, false) == None && Quoted(body, false) == false
    ensures StripComment(body + ("#" + c)) == StripRight(RustSpace, body)
  {
    HashAfter(body, "#" + c, false);
    assert (body + ("#" + c))[..|body|] == body;
  }

  // The comment goes, and with it the blanks before it; a `#` in quotes stays.
  lemma RemarkIsStripped(p: string, v: string, pad: string, comment: Option<string>)
    requires AllIn(RustSpace, p) && AllIn(RustSpace, pad) && ValueText(v)
    ensures Strip(RustSpace, StripComment(p + v + Remark(pad, comment))) == v
  {
    OpenText(p, v, pad);
    StripPadded(RustSpace, p, v, "");
    assert p + v + "" == p + v;
    if comment.Some? {
      assert p + v + Remark(pad, comment) == p + v + pad + ("#" + comment.value);
      CommentIsCut(p + v + pad, comment.value);
      StripRightPad(RustSpace, p + v, pad);
      EndIsKept(p + v);
    }
  }

  lemma EndIsKept(s: string)
    requires s != "" && !RustSpace(s[|s| - 1])
    ensures StripRight(RustSpace, s) == s
  {}

  // ------------------------------------------------------------------ a key line

  // `line` is `t` between blanks, and `t` is `key = value` and perhaps a comment.
  ghost predicate KeyLine(line: string, p1: string, t: string, p5: string, k: string, p2: string, p3: string,
                          v: string, p4: string, comment: Option<string>)
  {
    && line == p1 + t + p5 && t == k + p2 + "=" + (p3 + v + Remark(p4, comment))
    && KeyText(k) && ValueText(v) && RemarkText(p4, comment)
    && AllIn(RustSpace, p1) && AllIn(RustSpace, p2) && AllIn(RustSpace, p3)
    && AllIn(RustSpace, p4) && AllIn(RustSpace, p5)
  }

  // A trimmed line falls into what stands before and behind its first equals sign.
  ghost predicate Parts(t: string, i: nat, key: string, raw: string) {
    && t != "" && t[0] != '[' && t[0] != '#' && IndexOf(t, '=') == Some(i)
    && t[..i] == key && t[i + 1..] == raw
  }

  lemma LineIs(k: string, p2: string, p3: string, v: string, p4: string, comment: Option<string>, t: string)
    requires KeyText(k) && ValueText(v) && RemarkText(p4, comment) && AllIn(RustSpace, p2)
    requires t == k + p2 + "=" + (p3 + v + Remark(p4, comment))
    ensures Trimmed(RustSpace, t) && Parts(t, |k| + |p2|, k + p2, p3 + v + Remark(p4, comment))
  {
    var i := |k| + |p2|;
    assert t[0] == k[0] && k[0] in k;
    PadIsPlain(p2);
    assert t[..i] == k + p2 && t[i] == '=';
    IndexOfIs(t, '=', i);
    var r := p3 + v + Remark(p4, comment);
    assert t[|t| - 1] == r[|r| - 1];
    if comment.Some? { assert r[|r| - 1] == ("#" + comment.value)[|comment.value|]; }
  }

  // Both readers take the key and the value as they are written, whatever the blanks
  // and the comment; the wiper also takes the quotes off, and cuts at any `#`.
  lemma KeyIsRead(line: string, p1: string, t: string, p5: string, k: string, p2: string, p3: string,
                  v: string, p4: string, comment: Option<string>)
    requires KeyLine(line, p1, t, p5, k, p2, p3, v, p4, comment)
    ensures FirmwareLine(line) == Key(k, v)
    ensures '#' !in v ==> WiperLine(line) == Key(k, Strip(Quote, v))
  {
    FirmwareReads(line, p1, t, p5, k, p2, p3, v, p4, comment);
    if '#' !in v { WiperReads(line, p1, t, p5, k, p2, p3, v, p4, comment); }
  }

  lemma FirmwareReads(line: string, p1: string, t: string, p5: string, k: string, p2: string, p3: string,
                      v: string, p4: string, comment: Option<string>)
    requires KeyLine(line, p1, t, p5, k, p2, p3, v, p4, comment)
    ensures FirmwareLine(line) == Key(k, v) && Strip(RustSpace, line) == t
  {
    FirmwareParts(k, p2, p3, v, p4, comment, t);
    StripPadded(RustSpace, p1, t, p5);
    FirmwareTakes(line, t, k, v);
  }

  lemma WiperReads(line: string, p1: string, t: string, p5: string, k: string, p2: string, p3: string,
                   v: string, p4: string, comment: Option<string>)
    requires KeyLine(line, p1, t, p5, k, p2, p3, v, p4, comment) && '#' !in v
    ensures WiperLine(line) == Key(k, Strip(Quote, v))
  {
    FirmwareReads(line, p1, t, p5, k, p2, p3, v, p4, comment);
    WiperParts(k, p2, p3, v, p4, comment, t);
    WiperTakes(line, t, k, v);
  }

  lemma FirmwareParts(k: string, p2: string, p3: string, v: string, p4: string, comment: Option<string>, t: string)
    requires KeyText(k) && ValueText(v) && RemarkText(p4, comment)
    requires AllIn(RustSpace, p2) && AllIn(RustSpace, p3) && AllIn(RustSpace, p4)
    requires t == k + p2 + "=" + (p3 + v + Remark(p4, comment))
    ensures Trimmed(RustSpace, t) && FirmwareReady(t, k, v)
  {
    LineIs(k, p2, p3, v, p4, comment, t);
    KeyIsKept(k, p2);
    RemarkIsStripped(p3, v, p4, comment);
  }

  ghost predicate FirmwareReady(t: string, k: string, v: string) {
    exists i: nat, key, raw ::
      Parts(t, i, key, raw) && Strip(RustSpace, key) == k && Strip(RustSpace, StripComment(raw)) == v
  }

  ghost predicate WiperReady(t: string, k: string, v: string) {
    exists i: nat, key, raw ::
      Parts(Strip(RustSpace, BeforeHash(t)), i, key, raw) && Strip(RustSpace, key) == k && Strip(RustSpace, raw) == v
  }

  lemma WiperParts(k: string, p2: string, p3: string, v: string, p4: string, comment: Option<string>, t: string)
    requires KeyText(k) && ValueText(v) && '#' !in v
    requires AllIn(RustSpace, p2) && AllIn(RustSpace, p3) && AllIn(RustSpace, p4)
    requires t == k + p2 + "=" + (p3 + v + Remark(p4, comment))
    ensures WiperReady(t, k, v)
  {
    var raw := p3 + v;
    var cut := k + p2 + "=" + raw;
    WiperCuts(k, p2, p3, v, p4, comment, t, cut);
    assert raw + Remark("", None) == raw;
    LineIs(k, p2, p3, v, "", None, cut);
    KeyIsKept(k, p2);
    StripPadded(RustSpace, p3, v, "");
    assert p3 + v + "" == raw;
  }

  lemma FirmwareTakes(line: string, t: string, k: string, v: string)
    requires Strip(RustSpace, line) == t && FirmwareReady(t, k, v)
    ensures FirmwareLine(line) == Key(k, v)
  {
    var i: nat, key, raw :| Parts(t, i, key, raw) && Strip(RustSpace, key) == k &&
                            Strip(RustSpace, StripComment(raw)) == v;
    FirmwareKey(line, i);
  }

  lemma WiperTakes(line: string, t: string, k: string, v: string)
    requires Strip(RustSpace, line) == t && WiperReady(t, k, v)
    ensures WiperLine(line) == Key(k, Strip(Quote, v))
  {
    var cut := Strip(RustSpace, BeforeHash(t));
    var i: nat, key, raw :| Parts(cut, i, key, raw) && Strip(RustSpace, key) == k && Strip(RustSpace, raw) == v;
    WiperKey(line, cut, i);
  }

  lemma KeyIsKept(k: string, p2: string)
    requires KeyText(k) && AllIn(RustSpace, p2)
    ensures Strip(RustSpace, k + p2) == k
  {
    StripPadded(RustSpace, "", k, p2);
    assert "" + k + p2 == k + p2;
  }

  lemma WiperCuts(k: string, p2: string, p3: string, v: string, p4: string, comment: Option<string>,
                  t: string, cut: string)
    requires KeyText(k) && ValueText(v) && '#' !in v
    requires AllIn(RustSpace, p2) && AllIn(RustSpace, p3) && AllIn(RustSpace, p4)
    requires t == k + p2 + "=" + (p3 + v + Remark(p4, comment)) && cut == k + p2 + "=" + (p3 + v)
    ensures Strip(RustSpace, BeforeHash(t)) == cut
  {
    PadIsPlain(p2);
    PadIsPlain(p3);
    assert '#' !in cut && cut[0] == k[0] && cut[|cut| - 1] == v[|v| - 1];
    if comment.None? {
      assert t == cut;
      CutAlone(cut);
    } else {
      assert t == cut + p4 + ("#" + comment.value);
      CutBefore(cut, p4, comment.value);
    }
  }

  lemma CutAlone(cut: string)
    requires Trimmed(RustSpace, cut) && '#' !in cut
    ensures Strip(RustSpace, BeforeHash(cut)) == cut
  {
    TrimmedIsKept(cut);
  }

  lemma CutBefore(cut: string, pad: string, c: string)
    requires Trimmed(RustSpace, cut) && '#' !in cut && AllIn(RustSpace, pad)
    ensures Strip(RustSpace, BeforeHash(cut + pad + ("#" + c))) == cut
  {
    var before := cut + pad;
    var t := before + ("#" + c);
    PadIsPlain(pad);
    assert t[..|before|] == before && t[|before|] == '#';
    IndexOfIs(t, '#', |before|);
    StripPadded(RustSpace, "", cut, pad);
    assert "" + cut + pad == before;
  }

  // ------------------------------------------------------------- the other lines

  // A section header, with blanks inside and outside its brackets.
  lemma HeaderIsRead(p1: string, p2: string, name: string, p3: string, p4: string)
    requires AllIn(RustSpace, p1) && AllIn(RustSpace, p2) && AllIn(RustSpace, p3) && AllIn(RustSpace, p4)
    requires Trimmed(RustSpace, name) && '#' !in name
    ensures var line := p1 + ("[" + (p2 + name + p3) + "]") + p4;
            FirmwareLine(line) == WiperLine(line) == Section(name)
  {
    var inner := p2 + name + p3;
    var t := "[" + inner + "]";
    StripPadded(RustSpace, p1, t, p4);
    StripPadded(RustSpace, p2, name, p3);
    assert t[1..|t| - 1] == inner;
    PadIsPlain(p2);
    PadIsPlain(p3);
    assert '#' !in t;
    assert BeforeHash(t) == t;
    StripPadded(RustSpace, "", t, "");
    assert "" + t + "" == t;
  }

  // A blank line or a comment says nothing.
  lemma RemarkSaysNothing(p1: string, comment: Option<string>, p2: string)
    requires AllIn(RustSpace, p1) && AllIn(RustSpace, p2) && RemarkText("", comment)
    ensures var line := p1 + Remark("", comment) + p2; FirmwareLine(line) == WiperLine(line) == Nothing
  {
    var t := Remark("", comment);
    StripPadded(RustSpace, p1, t, p2);
    if comment.Some? {
      assert t == "#" + comment.value && t[0] == '#';
      IndexOfIs(t, '#', 0);
    }
    assert t[..0] == "" && Strip(RustSpace, "") == "" && IndexOf("", '=') == None;
  }

  // -------------------------------------------------------------------- a number

  lemma {:induction false} UnderscoresConcat(a: string, b: string)
    ensures WithoutUnderscores(a + b) == WithoutUnderscores(a) + WithoutUnderscores(b)
  {
    if a == "" {
      assert a + b == b;
    } else {
      assert (a + b)[1..] == a[1..] + b;
      UnderscoresConcat(a[1..], b);
    }
  }

  predicate Tight(s: string) {
    forall i :: 0 <= i < |s| ==> s[i] != '"' && !RustSpace(s[i])
  }

  lemma UnquotedIs(q: bool, s: string)
    requires Tight(s) && s != ""
    ensures Unquoted(if q then "\"" + s + "\"" else s) == s
  {
    var v := if q then "\"" + s + "\"" else s;
    TrimmedIsKept(v);
    var pad := if q then "\"" else "";
    StripPadded(Quote, pad, s, pad);
    assert pad + s + pad == v;
  }

  // An underscore anywhere in a number is ignored, and so are the quotes around it.
  lemma UnderscoreIsIgnored(q: bool, a: string, b: string)
    requires Tight(a) && Tight(b) && a + b != ""
    ensures FirmwareNumber(if q then "\"" + (a + "_" + b) + "\"" else a + "_" + b) == FirmwareNumber(a + b)
  {
    UnquotedIs(q, a + "_" + b);
    UnquotedIs(false, a + b);
    UnderscoresConcat(a + "_", b);
    UnderscoresConcat(a, "_");
    UnderscoresConcat(a, b);
    assert "_"[1..] == "";
    assert WithoutUnderscores("_") == "";
    assert WithoutUnderscores(a) + "" == WithoutUnderscores(a);
  }

  // A number is read in either radix, quoted or not, until it no longer fits.
  lemma NumberIsRead(q: bool, n: nat, hex: bool)
    ensures FirmwareNumber(if q then "\"" + Number(n, hex) + "\"" else Number(n, hex)) ==
            if n < 0x1_0000_0000 then Some(n) else None
  {
    var radix := if hex then 16 else 10;
    var d := Print(n, radix);
    DigitsAreTight(n, hex);
    UnquotedIs(q, Number(n, hex));
    ParsePrinted(n, radix);
    assert hex ==> ("0x" + d)[..2] == "0x" && ("0x" + d)[2..] == d;
    assert (StartsWith(Number(n, hex), "0x") <==> hex) && TrimHex(d) == d && TrimHex(Number(n, hex)) == d;
  }

  lemma DigitsAreTight(n: nat, hex: bool)
    ensures Tight(Number(n, hex)) && WithoutUnderscores(Number(n, hex)) == Number(n, hex)
    ensures !StartsWith(Print(n, if hex then 16 else 10), "0x")
  {
    var radix := if hex then 16 else 10;
    var d := Print(n, radix);
    PrintReadsBack(n, radix);
    forall i | 0 <= i < |d| ensures d[i] !in "+xmk_#\"MK" && !RustSpace(d[i]) { DigitIsPlain(d[i], radix); }
    assert |d| > 1 ==> d[..2][1] == d[1] && "0x"[1] == 'x';
    assert '_' !in Number(n, hex);
    NoUnderscores(Number(n, hex));
  }

  // The prefix may be repeated, a plus sign and leading zeros may stand in front, and
  // nothing at all is no number.
  lemma PrefixesAreRead(s: string, radix: nat)
    requires radix == 10 || radix == 16
    ensures TrimHex("0x" + s) == TrimHex(s)
    ensures ParseU32("", radix) == ParseU32("+", radix) == None
    ensures s != "" && s[0] != '+' ==> ParseU32("+" + s, radix) == ParseU32("0" + s, radix) == ParseU32(s, radix)
  {
    assert ("0x" + s)[..2] == "0x" && ("0x" + s)[2..] == s;
    assert "+"[1..] == "";
    if s != "" && s[0] != '+' { PlusAndZero(s, radix); }
  }

  lemma PlusAndZero(s: string, radix: nat)
    requires (radix == 10 || radix == 16) && s != "" && s[0] != '+'
    ensures ParseU32("+" + s, radix) == ParseU32("0" + s, radix) == ParseU32(s, radix)
  {
    assert ("+" + s)[1..] == s;
    ZeroInFront(s, radix);
  }

  lemma {:induction false} ZeroInFront(s: string, radix: nat)
    requires radix == 10 || radix == 16
    ensures Digits("0" + s, radix) <==> Digits(s, radix)
    ensures Digits(s, radix) ==> Value("0" + s, radix) == Value(s, radix)
  {
    var t := "0" + s;
    assert forall i :: 0 <= i < |s| ==> t[i + 1] == s[i];
    assert Digits(t, radix) ==> Digits(s, radix) by {
      if Digits(t, radix) {
        forall i | 0 <= i < |s| ensures DigitValue(s[i]) < radix { assert t[i + 1] == s[i]; }
      }
    }
    ZeroValue(s, radix);
  }

  lemma {:induction false} ZeroValue(s: string, radix: nat)
    requires radix == 10 || radix == 16
    ensures Digits(s, radix) ==> Digits("0" + s, radix) && Value("0" + s, radix) == Value(s, radix)
  {
    var t := "0" + s;
    if s == "" {
      assert t[..0] == "";
    } else if Digits(s, radix) {
      var n := |s| - 1;
      assert t[..|t| - 1] == "0" + s[..n] && t[|t| - 1] == s[n];
      ZeroValue(s[..n], radix);
    }
  }

  // ----------------------------------------------------------- what is accepted

  // Blanks around a size, and between its number and its unit, do not matter.
  lemma PaddedSize(p1: string, n: nat, hex: bool, p: string, u: string, mult: nat, p2: string)
    requires UnitText(u, mult) && AllIn(RustSpace, p1) && AllIn(RustSpace, p) && AllIn(RustSpace, p2)
    requires u != "" || p == ""
    ensures ParseSize(Strip(RustSpace, p1 + (Number(n, hex) + p + u) + p2)) == CheckedMul(n, mult)
  {
    var s := Number(n, hex);
    NumberShape(n, hex);
    UnitEndsPlain(u, mult);
    TrimmedUnit(s, p, u);
    StripPadded(RustSpace, p1, s + p + u, p2);
    if p == "" {
      assert s + p == s;
      SizesReadBack(n, hex, u, mult);
    } else {
      PaddedUnit(s, p, u, mult);
      ScaledNumber(n, hex, mult);
    }
  }

  lemma NumberShape(n: nat, hex: bool)
    ensures Unitless(Number(n, hex)) && Base(Number(n, hex)) == if n < U32 then Some(n) else None
  {
    if hex { HexShape(n); } else { DecimalShape(n); }
  }

  lemma TrimmedUnit(s: string, p: string, u: string)
    requires Trimmed(RustSpace, s) && (u != "" || p == "") && (u != "" ==> !RustSpace(u[|u| - 1]))
    ensures Trimmed(RustSpace, s + p + u)
  {}

  lemma PaddedUnit(s: string, p: string, u: string, mult: nat)
    requires Unitless(s) && AllIn(RustSpace, p) && p != "" && UnitText(u, mult) && u != ""
    ensures ParseSize(s + p + u) == Scale(Base(s), mult)
  {
    UnitPadded(s, p, u, mult);
    NumberPadded(s, p);
    SizeIs(s + p + u, s + p, s, mult);
  }

  lemma UnitPadded(s: string, p: string, u: string, mult: nat)
    requires ToLower(s) == s && AllIn(RustSpace, p) && p != "" && UnitText(u, mult) && u != ""
    ensures Unit(ToLower(s + p + u)) == Scaled(s + p, mult)
  {
    LowerPadded(s, p, u);
    UnitAfterPad(s + p, u, mult);
  }

  lemma NumberPadded(s: string, p: string)
    requires Trimmed(RustSpace, s) && AllIn(RustSpace, p)
    ensures Strip(RustSpace, s + p) == s
  {
    StripPadded(RustSpace, "", s, p);
    assert "" + s + p == s + p;
  }

  lemma SizeIs(text: string, digits: string, s: string, mult: nat)
    requires Unit(ToLower(text)) == Scaled(digits, mult) && Strip(RustSpace, digits) == s
    ensures ParseSize(text) == Scale(Base(s), mult)
  {}

  lemma ScaledNumber(n: nat, hex: bool, mult: nat)
    requires mult >= 1
    ensures Scale(Base(Number(n, hex)), mult) == CheckedMul(n, mult)
  {
    NumberShape(n, hex);
    ScalingOnlyGrows(n, mult);
  }

  lemma UnitEndsPlain(u: string, mult: nat)
    requires UnitText(u, mult)
    ensures mult >= 1 && forall i :: 0 <= i < |u| ==> !RustSpace(u[i])
  {
    forall i | 0 <= i < |u| ensures !RustSpace(u[i]) { assert Lower(u[i]) == ToLower(u)[i]; }
  }

  lemma LowerPadded(s: string, p: string, u: string)
    requires ToLower(s) == s && AllIn(RustSpace, p)
    ensures ToLower(s + p + u) == s + p + ToLower(u)
  {
    forall i | 0 <= i < |p| ensures Lower(p[i]) == p[i] { assert RustSpace(p[i]); }
    assert forall i :: 0 <= i < |s| ==> Lower(s[i]) == ToLower(s)[i];
    var t := s + p + u;
    forall i | 0 <= i < |t| ensures ToLower(t)[i] == (s + p + ToLower(u))[i] {
      if i < |s| {} else if i < |s| + |p| { assert t[i] == p[i - |s|]; }
    }
  }

  // A unit after a blank is a unit.
  lemma UnitAfterPad(s: string, u: string, mult: nat)
    requires UnitText(u, mult) && u != "" && s != "" && RustSpace(s[|s| - 1])
    ensures Unit(s + ToLower(u)) == Scaled(s, mult)
  {
    var l := ToLower(u);
    if |l| == 2 {
      assert l == [l[0], 'b'];
      UnitOfPair(s, l[0]);
    } else {
      assert l == [l[0]];
      UnitOfLetter(s, l[0]);
    }
  }

  // Which sizes each script takes, of all that can be written: whole sectors, up to
  // 16 MiB of flash, at least 128 KiB of store, and not less than 64 KiB to erase.
  lemma SizesAreTaken(p1: string, n: nat, hex: bool, p: string, u: string, mult: nat, p2: string)
    requires UnitText(u, mult) && AllIn(RustSpace, p1) && AllIn(RustSpace, p) && AllIn(RustSpace, p2)
    requires u != "" || p == ""
    ensures var text, bytes := p1 + (Number(n, hex) + p + u) + p2, n * mult;
            && ResolveFlashSize(text) == (if bytes % 4096 == 0 && bytes <= 0x100_0000 then Some(bytes) else None)
            && ResolveKvmainLen(text) ==
               (if bytes % 4096 == 0 && 0x2_0000 <= bytes < 0x1_0000_0000 then Some(bytes) else None)
            && WiperFlashSize(text) ==
               (if bytes % 4096 == 0 && 0x1_0000 <= bytes <= 0x100_0000 then Some(bytes) else None)
  {
    PaddedSize(p1, n, hex, p, u, mult, p2);
  }
}
