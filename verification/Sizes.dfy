// Byte counts as the build scripts read them: decimal, 0x-hex, and K/KB/M/MB
// suffixes, in 32 bits.
module Sizes {
  import opened Text

  const U32: nat := 0x1_0000_0000

  function Lower(c: char): char {
    if 'A' <= c <= 'Z' then (c as int + 32) as char else c
  }

  // ASCII capitals only.
  lemma LowerIs(c: char)
    ensures Lower(c) == if c in "ABCDEFGHIJKLMNOPQRSTUVWXYZ" then (c as int + 32) as char else c
  {}

  function ToLower(s: string): (r: string)
    ensures |r| == |s| && forall i :: 0 <= i < |s| ==> r[i] == Lower(s[i])
  {
    seq(|s|, i requires 0 <= i < |s| => Lower(s[i]))
  }

  function DigitValue(c: char): nat {
    if '0' <= c <= '9' then c as nat - '0' as nat
    else if 'a' <= c <= 'f' then c as nat - 'a' as nat + 10
    else if 'A' <= c <= 'F' then c as nat - 'A' as nat + 10
    else 99
  }

  predicate Digits(s: string, radix: nat) {
    forall i :: 0 <= i < |s| ==> DigitValue(s[i]) < radix
  }

  function Value(s: string, radix: nat): nat {
    if s == "" then 0 else Value(s[..|s| - 1], radix) * radix + DigitValue(s[|s| - 1])
  }

  // `u32::from_str_radix`: an optional plus sign, at least one digit, no overflow.
  function ParseU32(s: string, radix: nat): (r: Option<nat>)
    ensures r.Some? ==> r.value < U32
  {
    var digits := if s != "" && s[0] == '+' then s[1..] else s;
    if digits == "" || !Digits(digits, radix) || Value(digits, radix) >= U32 then None
    else Some(Value(digits, radix))
  }

  datatype Scaled = Scaled(digits: string, mult: nat)

  // The suffix is looked for longest first, megabytes before kilobytes.
  function Unit(lower: string): (r: Scaled)
    ensures r.mult >= 1
  {
    if EndsWith(lower, "mb") then Scaled(lower[..|lower| - 2], 1048576)
    else if EndsWith(lower, "m") then Scaled(lower[..|lower| - 1], 1048576)
    else if EndsWith(lower, "kb") then Scaled(lower[..|lower| - 2], 1024)
    else if EndsWith(lower, "k") then Scaled(lower[..|lower| - 1], 1024)
    else Scaled(lower, 1)
  }

  function Base(digits: string): Option<nat> {
    if StartsWith(digits, "0x") then ParseU32(digits[2..], 16) else ParseU32(digits, 10)
  }

  function CheckedMul(n: nat, mult: nat): (r: Option<nat>)
    ensures r.Some? ==> r.value < U32
  {
    if n * mult < U32 then Some(n * mult) else None
  }

  function Scale(base: Option<nat>, mult: nat): (r: Option<nat>)
    ensures r.Some? ==> r.value < U32
  {
    match base case None => None case Some(n) => CheckedMul(n, mult)
  }

  function ParseSize(s: string): (r: Option<nat>)
    ensures r.Some? ==> r.value < U32
  {
    var u := Unit(ToLower(s));
    Scale(Base(Strip(RustSpace, u.digits)), u.mult)
  }

  // ------------------------------------------------------------------- printing

  function Digit(d: nat): (c: char)
    requires d < 16
    ensures DigitValue(c) == d && Lower(c) == c
  {
    if d < 10 then ('0' as int + d) as char else ('a' as int + d - 10) as char
  }

  // `format!("{}", n)` and `format!("{:x}", n)`.
  function Print(n: nat, radix: nat): (s: string)
    requires radix == 10 || radix == 16
    ensures s != ""
  {
    if n < radix then [Digit(n)] else Print(n / radix, radix) + [Digit(n % radix)]
  }

  lemma {:induction false} PrintReadsBack(n: nat, radix: nat)
    requires radix == 10 || radix == 16
    ensures Digits(Print(n, radix), radix) && Value(Print(n, radix), radix) == n
    ensures forall i :: 0 <= i < |Print(n, radix)| ==> Lower(Print(n, radix)[i]) == Print(n, radix)[i]
    decreases n
  {
    if n < radix {
      assert [Digit(n)][..0] == "";
    } else {
      PrintReadsBack(n / radix, radix);
      var s, front := Print(n, radix), Print(n / radix, radix);
      assert s[..|s| - 1] == front && s[|s| - 1] == Digit(n % radix);
      assert n == n / radix * radix + n % radix;
    }
  }

  // A number as either radix spells it.
  function Number(n: nat, hex: bool): string {
    if hex then "0x" + Print(n, 16) else Print(n, 10)
  }

  lemma DigitIsPlain(c: char, radix: nat)
    requires radix == 10 || radix == 16
    requires DigitValue(c) < radix
    ensures c !in "+xmk_#\"MK" && !RustSpace(c) && (radix == 10 ==> c != 'b')
  {}

  lemma ParsePrinted(n: nat, radix: nat)
    requires radix == 10 || radix == 16
    ensures ParseU32(Print(n, radix), radix) == if n < U32 then Some(n) else None
  {
    PrintReadsBack(n, radix);
    DigitIsPlain(Print(n, radix)[0], radix);
  }

  // A printed number survives lower-casing and trimming, and ends in no unit.
  ghost predicate Unitless(s: string) {
    && Trimmed(RustSpace, s) && ToLower(s) == s
    && s[|s| - 1] !in "mk" && (|s| > 1 && s[|s| - 1] == 'b' ==> s[|s| - 2] !in "mk")
  }

  lemma PrintIsPlain(n: nat, radix: nat)
    requires radix == 10 || radix == 16
    ensures forall i :: 0 <= i < |Print(n, radix)| ==>
              var c := Print(n, radix)[i]; c !in "+xmk" && !RustSpace(c) && Lower(c) == c && (radix == 10 ==> c != 'b')
  {
    PrintReadsBack(n, radix);
    var p := Print(n, radix);
    forall i | 0 <= i < |p| ensures p[i] !in "+xmk" && !RustSpace(p[i]) && (radix == 10 ==> p[i] != 'b') {
      DigitIsPlain(p[i], radix);
    }
  }

  lemma DecimalShape(n: nat)
    ensures Unitless(Print(n, 10)) && Base(Print(n, 10)) == if n < U32 then Some(n) else None
  {
    var s := Print(n, 10);
    PrintIsPlain(n, 10);
    ParsePrinted(n, 10);
    assert |s| > 1 ==> s[..2][1] == s[1] && "0x"[1] == 'x';
    assert ToLower(s) == s;
  }

  lemma HexShape(n: nat)
    ensures Unitless("0x" + Print(n, 16)) && Base("0x" + Print(n, 16)) == if n < U32 then Some(n) else None
  {
    var p := Print(n, 16);
    var s := "0x" + p;
    PrintIsPlain(n, 16);
    ParsePrinted(n, 16);
    assert s[..2] == "0x" && s[2..] == p;
    assert s[|s| - 1] == p[|p| - 1];
    assert s[|s| - 2] == if |p| == 1 then 'x' else p[|p| - 2];
    assert ToLower(s) == s;
  }

  // A unit as a user may spell it, in any case.
  predicate UnitText(u: string, mult: nat) {
    var l := ToLower(u);
    || (l == "" && mult == 1)
    || ((l == "k" || l == "kb") && mult == 1024)
    || ((l == "m" || l == "mb") && mult == 1048576)
  }

  lemma EndsInOne(t: string, a: char)
    ensures EndsWith(t, [a]) <==> t != "" && t[|t| - 1] == a
  {
    if t != "" { assert t[|t| - 1..] == [t[|t| - 1]]; }
  }

  lemma EndsInTwo(t: string, a: char, b: char)
    ensures EndsWith(t, [a, b]) <==> |t| >= 2 && t[|t| - 2] == a && t[|t| - 1] == b
  {
    if |t| >= 2 { assert t[|t| - 2..] == [t[|t| - 2], t[|t| - 1]]; }
  }

  // The suffix tests of `Unit`, by the last two characters.
  lemma UnitEnds(t: string)
    ensures EndsWith(t, "mb") <==> |t| >= 2 && t[|t| - 2] == 'm' && t[|t| - 1] == 'b'
    ensures EndsWith(t, "kb") <==> |t| >= 2 && t[|t| - 2] == 'k' && t[|t| - 1] == 'b'
    ensures EndsWith(t, "m") <==> t != "" && t[|t| - 1] == 'm'
    ensures EndsWith(t, "k") <==> t != "" && t[|t| - 1] == 'k'
  {
    EndsInTwo(t, 'm', 'b');
    EndsInTwo(t, 'k', 'b');
    EndsInOne(t, 'm');
    EndsInOne(t, 'k');
    assert "mb" == ['m', 'b'] && "kb" == ['k', 'b'] && "m" == ['m'] && "k" == ['k'];
  }

  lemma UnitOfPair(s: string, a: char)
    requires a == 'm' || a == 'k'
    ensures Unit(s + [a, 'b']) == Scaled(s, if a == 'm' then 1048576 else 1024)
  {
    UnitEnds(s + [a, 'b']);
    assert (s + [a, 'b'])[..|s|] == s;
  }

  lemma UnitOfLetter(s: string, a: char)
    requires a == 'm' || a == 'k'
    ensures Unit(s + [a]) == Scaled(s, if a == 'm' then 1048576 else 1024)
  {
    UnitEnds(s + [a]);
    assert (s + [a])[..|s|] == s;
  }

  lemma UnitOfNumber(s: string, u: string, mult: nat)
    requires Unitless(s) && UnitText(u, mult)
    ensures Unit(s + ToLower(u)) == Scaled(s, mult)
  {
    var l := ToLower(u);
    if l == "" {
      assert s + l == s;
      UnitEnds(s);
    } else if |l| == 1 {
      assert l == [l[0]];
      UnitOfLetter(s, l[0]);
    } else {
      assert l == [l[0], 'b'];
      UnitOfPair(s, l[0]);
    }
  }

  lemma LowerConcat(s: string, u: string)
    requires ToLower(s) == s
    ensures ToLower(s + u) == s + ToLower(u)
  {
    assert forall i :: 0 <= i < |s| ==> Lower(s[i]) == ToLower(s)[i];
  }

  lemma TrimmedIsKept(s: string)
    requires Trimmed(RustSpace, s)
    ensures Strip(RustSpace, s) == s
  {
    StripPadded(RustSpace, "", s, "");
    assert "" + s + "" == s;
  }

  lemma ReadScaled(t: string, s: string, mult: nat)
    requires Unit(ToLower(t)) == Scaled(s, mult) && Trimmed(RustSpace, s)
    ensures ParseSize(t) == Scale(Base(s), mult)
  {
    TrimmedIsKept(s);
  }

  lemma ReadNumber(s: string, u: string, mult: nat)
    requires Unitless(s) && UnitText(u, mult)
    ensures ParseSize(s + u) == Scale(Base(s), mult)
  {
    LowerConcat(s, u);
    UnitOfNumber(s, u, mult);
    ReadScaled(s + u, s, mult);
  }

  lemma ScalingOnlyGrows(n: nat, mult: nat)
    requires mult >= 1
    ensures n <= n * mult
  {}

  // Reading inverts printing, in every form, and fails exactly when 32 bits do.
  lemma SizesReadBack(n: nat, hex: bool, u: string, mult: nat)
    requires UnitText(u, mult)
    ensures ParseSize(Number(n, hex) + u) == CheckedMul(n, mult)
  {
    if hex { HexShape(n); } else { DecimalShape(n); }
    ReadNumber(Number(n, hex), u, mult);
    ScalingOnlyGrows(n, mult);
  }
}
