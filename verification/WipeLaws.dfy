// The erase range against the store: what the two build scripts make of one
// board file.
module WipeLaws {
  import opened Text
  import opened Sizes
  import opened Flash
  import opened Boards
  import opened BoardLaws

  // ------------------------------------------------------------ one value, two readers

  lemma BadInBase(s: string, c: char)
    requires c in s && DigitValue(c) >= 16 && c !in "+0x"
    ensures Base(s) == None
  {
    if StartsWith(s, "0x") {
      var i :| 0 <= i < |s| && s[i] == c;
      assert s[..2][0] == s[0] && s[..2][1] == s[1];
      assert s[2..][i - 2] == c;
      BadIsNoDigit(s[2..], 16, c);
    } else {
      BadIsNoDigit(s, 10, c);
    }
  }

  lemma {:induction false} LowerValue(s: string)
    requires Digits(s, 16)
    ensures Digits(ToLower(s), 16) && Value(ToLower(s), 16) == Value(s, 16)
  {
    forall i | 0 <= i < |s| ensures DigitValue(ToLower(s)[i]) == DigitValue(s[i]) {}
    if s != "" {
      var front := s[..|s| - 1];
      assert ToLower(s)[..|s| - 1] == ToLower(front);
      LowerValue(front);
    }
  }

  // Case does not matter.
  lemma LowerParses(s: string)
    ensures ParseU32(ToLower(s), 16) == ParseU32(s, 16)
  {
    var l := ToLower(s);
    if s != "" {
      var digits := if s[0] == '+' then s[1..] else s;
      assert l[0] == '+' <==> s[0] == '+';
      assert s[0] == '+' ==> l[1..] == ToLower(s[1..]);
      LowerDigits(digits);
      if Digits(digits, 16) { LowerValue(digits); }
    }
  }

  lemma LowerDigits(s: string)
    ensures Digits(ToLower(s), 16) <==> Digits(s, 16)
  {
    forall i | 0 <= i < |s| ensures DigitValue(ToLower(s)[i]) == DigitValue(s[i]) {}
  }

  // The characters of a value the firmware reads as a number.
  lemma NumberHasNoBad(v: string)
    requires FirmwareNumber(v).Some?
    ensures Unquoted(v) != "" && forall c :: c in Unquoted(v) ==> !Bad(c)
  {
    forall c | c in Unquoted(v) ensures !Bad(c) {
      if Bad(c) { BadIsNoNumber(v, c); }
    }
  }

  // The wiper reads the value with an `M` behind it.
  lemma WiperReads(v: string)
    requires FirmwareNumber(v).Some?
    ensures Strip(RustSpace, Unquoted(v) + "M") == Unquoted(v) + "M"
    ensures ParseSize(Unquoted(v) + "M") == Scale(Base(ToLower(Unquoted(v))), 1048576)
  {
    NumberIsTight(v);
    ReadsMega(Unquoted(v));
  }

  lemma NumberIsTight(v: string)
    requires FirmwareNumber(v).Some?
    ensures Trimmed(RustSpace, Unquoted(v)) && Trimmed(RustSpace, ToLower(Unquoted(v)))
  {
    var t := Unquoted(v);
    NumberHasNoBad(v);
    forall i | 0 <= i < |t| ensures !RustSpace(t[i]) && !RustSpace(Lower(t[i])) {
      assert t[i] in t && !Bad(t[i]);
    }
  }

  lemma ReadsMega(t: string)
    requires Trimmed(RustSpace, t) && Trimmed(RustSpace, ToLower(t))
    ensures Strip(RustSpace, t + "M") == t + "M" && ParseSize(t + "M") == Scale(Base(ToLower(t)), 1048576)
  {
    TrimmedIsKept(t + "M");
    assert ToLower(t + "M") == ToLower(t) + ['m'];
    UnitOfLetter(ToLower(t), 'm');
    ReadScaled(t + "M", ToLower(t), 1048576);
  }

  lemma SecondPrefixIsNoNumber(rest: string)
    requires StartsWith(rest, "0x")
    ensures ParseU32(ToLower(rest), 16) == None
  {
    assert rest[..2][1] == rest[1] && ToLower(rest)[1] == 'x';
    BadIsNoDigit(ToLower(rest), 16, 'x');
  }

  lemma LowerPrefix(t: string)
    requires StartsWith(t, "0x")
    ensures StartsWith(ToLower(t), "0x") && ToLower(t)[2..] == ToLower(t[2..])
  {
    assert t[..2][0] == t[0] && t[..2][1] == t[1];
    assert ToLower(t)[..2] == "0x";
  }

  lemma HexAgrees(t: string)
    requires StartsWith(t, "0x") && Base(ToLower(t)).Some? && ParseU32(TrimHex(t), 16).Some?
    ensures Base(ToLower(t)) == ParseU32(TrimHex(t), 16)
  {
    LowerPrefix(t);
    if StartsWith(t[2..], "0x") { SecondPrefixIsNoNumber(t[2..]); } else { LowerParses(t[2..]); }
  }

  lemma DecimalAgrees(t: string)
    requires !StartsWith(t, "0x") && ParseU32(t, 10).Some?
    ensures Base(ToLower(t)) == ParseU32(t, 10)
  {
    forall i | 0 <= i < |t| ensures Lower(t[i]) == t[i] {
      if DigitValue(t[i]) >= 10 && t[i] != '+' {
        assert t[i] in t;
        BadIsNoDigit(t, 10, t[i]);
      }
    }
    assert ToLower(t) == t;
  }

  // A value both scripts accept is the same number of megabytes to both.
  lemma OneValueOneSize(v: string)
    requires FirmwareNumber(v).Some? && ParseSize(Strip(RustSpace, Unquoted(v) + "M")).Some?
    ensures ParseSize(Strip(RustSpace, Unquoted(v) + "M")) == CheckedMul(FirmwareNumber(v).value, 1048576)
  {
    var t := Unquoted(v);
    WiperReads(v);
    WiperTakesNoUnderscore(t);
    NoUnderscores(t);
    if StartsWith(t, "0x") { HexAgrees(t); } else { DecimalAgrees(t); }
  }

  lemma WiperTakesNoUnderscore(t: string)
    requires Base(ToLower(t)).Some?
    ensures '_' !in t
  {
    if '_' in t {
      UnderscoreStays(t);
      BadInBase(ToLower(t), '_');
    }
  }

  lemma UnderscoreStays(t: string)
    requires '_' in t
    ensures '_' in ToLower(t)
  {
    var i :| 0 <= i < |t| && t[i] == '_';
    assert ToLower(t)[i] == '_';
  }

  // -------------------------------------------------------------- the two scripts

  // With only BOARD set: the flash size out of the values a reader found. None is
  // a build that stops.
  function FirmwareFlashOf(values: seq<string>): Option<nat> {
    match Last(values, None)
    case Aborts => None
    case Size(None) => ResolveFlashSize(Print(DEFAULT_FLASH_SIZE, 10))
    case Size(Some(mb)) => ResolveFlashSize(Print(mb, 10) + "M")
  }

  function WiperFlashOf(values: seq<string>): Option<nat> {
    if values == [] then None else WiperFlashSize(values[0] + "M")
  }

  function FirmwareFlash(lines: seq<string>): Option<nat> {
    FirmwareFlashOf(FirmwareValues(lines, ""))
  }

  function WiperFlash(lines: seq<string>): Option<nat> {
    WiperFlashOf(WiperValues(lines, "flash", "size_mb", false))
  }

  lemma {:induction false} LastIsLast(values: seq<string>, n: Option<nat>)
    requires values != [] && Last(values, n).Size?
    ensures forall i :: 0 <= i < |values| ==> FirmwareNumber(values[i]).Some?
    ensures Last(values, n) == Size(FirmwareNumber(values[|values| - 1]))
  {
    if |values| > 1 { LastIsLast(values[1..], FirmwareNumber(values[0])); } else { assert values[1..] == []; }
  }

  lemma MegaText(mb: nat)
    ensures Strip(RustSpace, Print(mb, 10) + "M") == Print(mb, 10) + "M"
    ensures ParseSize(Print(mb, 10) + "M") == CheckedMul(mb, 1048576)
  {
    DecimalShape(mb);
    TrimmedIsKept(Print(mb, 10) + "M");
    SizesReadBack(mb, false, "M", 1048576);
  }

  // The firmware lays out the last value.
  lemma FirmwareTakesTheLast(vs: seq<string>)
    requires FirmwareFlashOf(vs).Some? && vs != []
    ensures forall i :: 0 <= i < |vs| ==> FirmwareNumber(vs[i]).Some?
    ensures FirmwareFlashOf(vs) == CheckedMul(FirmwareNumber(vs[|vs| - 1]).value, 1048576)
  {
    LastIsLast(vs, None);
    MegaText(FirmwareNumber(vs[|vs| - 1]).value);
  }

  lemma MegabytesAreInjective(a: nat, b: nat)
    requires CheckedMul(a, 1048576).Some? && CheckedMul(b, 1048576).Some?
    ensures CheckedMul(a, 1048576) == CheckedMul(b, 1048576) <==> a == b
  {}

  // What the firmware lays out, in megabytes: the last `size_mb` it sees, or the
  // default when it sees none.
  function FirmwareMegabytes(vs: seq<string>): Option<nat> {
    if vs == [] then Some(4) else FirmwareNumber(vs[|vs| - 1])
  }

  lemma FirmwareLaysOut(vs: seq<string>)
    requires FirmwareFlashOf(vs).Some?
    ensures FirmwareMegabytes(vs).Some? && FirmwareMegabytes(vs).value <= 16
    ensures FirmwareFlashOf(vs).value == FirmwareMegabytes(vs).value * 1048576
  {
    if vs == [] { NothingMeansFour(); } else { FirmwareTakesTheLast(vs); }
  }

  lemma NothingMeansFour()
    ensures FirmwareFlashOf([]) == Some(4 * 1048576)
  {
    PlainCountIsRead(DEFAULT_FLASH_SIZE);
  }

  lemma PlainCountIsRead(bytes: nat)
    requires bytes % SECTOR == 0 && bytes <= MAX_FLASH
    ensures ResolveFlashSize(Print(bytes, 10)) == Some(bytes)
  {
    var text := Print(bytes, 10);
    DecimalShape(bytes);
    TrimmedIsKept(text);
    SizesReadBack(bytes, false, "", 1);
    assert text + "" == text;
  }

  // The number the wiper takes a value for, before its unit.
  function WiperNumber(v: string): Option<nat> {
    Base(Strip(RustSpace, ToLower(StripLeft(RustSpace, v))))
  }

  lemma {:induction false} LettersStay(v: string)
    ensures StripLeft(RustSpace, v + "M") == StripLeft(RustSpace, v) + "M"
  {
    if v != "" && RustSpace(v[0]) {
      assert (v + "M")[1..] == v[1..] + "M";
      LettersStay(v[1..]);
    }
  }

  // Any value at all is read as a count of megabytes.
  lemma WiperCountsMegabytes(v: string)
    ensures ParseSize(Strip(RustSpace, v + "M")) == Scale(WiperNumber(v), 1048576)
  {
    var t := StripLeft(RustSpace, v);
    LettersStay(v);
    assert Strip(RustSpace, v + "M") == t + "M";
    assert ToLower(t + "M") == ToLower(t) + ['m'];
    UnitOfLetter(ToLower(t), 'm');
  }

  lemma WiperErases(ws: seq<string>)
    requires WiperFlashOf(ws).Some?
    ensures ws != [] && WiperNumber(ws[0]).Some? && WiperFlashOf(ws).value == WiperNumber(ws[0]).value * 1048576
  {
    WiperCountsMegabytes(ws[0]);
  }

  // What the two readers find in one file, both builds succeeding.
  ghost predicate BothBuild(lines: seq<string>, vs: seq<string>, ws: seq<string>) {
    && vs == FirmwareValues(lines, "") && ws == WiperValues(lines, "flash", "size_mb", false)
    && FirmwareFlash(lines).Some? && WiperFlash(lines).Some?
  }

  lemma ValuesAgreeExactly(vs: seq<string>, ws: seq<string>)
    requires FirmwareFlashOf(vs).Some? && WiperFlashOf(ws).Some?
    ensures ws != []
    ensures FirmwareFlashOf(vs) == WiperFlashOf(ws) <==> WiperNumber(ws[0]) == FirmwareMegabytes(vs)
  {
    FirmwareLaysOut(vs);
    WiperErases(ws);
    var f, w := FirmwareMegabytes(vs).value, WiperNumber(ws[0]).value;
    assert f * 1048576 == w * 1048576 <==> f == w;
  }

  // On any file, the two sizes are equal exactly when the first value the wiper sees
  // and the last one the firmware sees, or its default, are the same number.
  lemma SizesAgreeExactly(lines: seq<string>, vs: seq<string>, ws: seq<string>)
    requires BothBuild(lines, vs, ws)
    ensures ws != []
    ensures FirmwareFlash(lines) == WiperFlash(lines) <==> WiperNumber(ws[0]) == FirmwareMegabytes(vs)
  {
    ValuesAgreeExactly(vs, ws);
  }

  // Both store partitions lie inside the erased range, to their last byte.
  ghost predicate Covers(l: Layout, erased: nat) {
    && FLASH_BASE <= l.kvmainAt && l.kvmainAt + l.kvmainK * 1024 <= l.kvcntAt
    && l.kvcntAt + l.kvcntK * 1024 <= FLASH_BASE + erased
  }

  lemma CoversExactly(mode: Arith, flash: nat, kvmain: nat, f: nat, w: nat)
    requires f <= 16 && flash == f * 1048576
    requires MIN_KVMAIN <= kvmain < U32 && kvmain % SECTOR == 0 && kvmain + KVCNT_LEN < U32
    requires LayoutFits(mode, flash, kvmain)
    ensures var l := MemoryLayout(mode, flash, kvmain); l.Some? && (Covers(l.value, w * 1048576) <==> w >= f)
  {
    assert flash == 4096 * (f * 256);
    AcceptedTilesExactly(mode, flash, kvmain);
  }

  // A KVMAIN the build accepts beside this flash size, its sum in range.
  ghost predicate Accepted(mode: Arith, flash: Option<nat>, kvmain: nat) {
    && flash.Some? && flash.value <= MAX_FLASH
    && MIN_KVMAIN <= kvmain < U32 && kvmain % SECTOR == 0 && kvmain + KVCNT_LEN < U32
    && LayoutFits(mode, flash.value, kvmain)
  }

  ghost predicate ErasesTheStore(mode: Arith, lines: seq<string>, kvmain: nat)
    requires Accepted(mode, FirmwareFlash(lines), kvmain) && WiperFlash(lines).Some?
  {
    var l := MemoryLayout(mode, FirmwareFlash(lines).value, kvmain);
    l.Some? && Covers(l.value, WiperFlash(lines).value)
  }

  // For every board file both builds accept and every layout the firmware accepts:
  // the erase covers the store exactly when the first value the wiper sees is at
  // least the last one the firmware sees, or its default.
  lemma EraseCoversExactly(lines: seq<string>, vs: seq<string>, ws: seq<string>, mode: Arith, kvmain: nat)
    requires BothBuild(lines, vs, ws) && Accepted(mode, FirmwareFlash(lines), kvmain)
    ensures ws != [] && WiperNumber(ws[0]).Some? && FirmwareMegabytes(vs).Some?
    ensures ErasesTheStore(mode, lines, kvmain) <==> WiperNumber(ws[0]).value >= FirmwareMegabytes(vs).value
  {
    FirmwareLaysOut(vs);
    WiperErases(ws);
    CoversExactly(mode, FirmwareFlash(lines).value, kvmain, FirmwareMegabytes(vs).value, WiperNumber(ws[0]).value);
  }

  lemma FilesAlign(lines: seq<string>)
    requires HeadersClean(lines)
    ensures Aligned(FirmwareValues(lines, ""), WiperValues(lines, "flash", "size_mb", false))
  {
    assert "" != "flash";
    FilesReadAlike(lines, "");
  }

  // Where no section header carries a comment both scripts see the same values, so
  // only the first and the last `size_mb` matter.
  lemma CleanFilesSeeOneList(lines: seq<string>, vs: seq<string>, ws: seq<string>)
    requires HeadersClean(lines) && BothBuild(lines, vs, ws)
    ensures vs != [] && ws != [] && FirmwareNumber(vs[0]).Some?
    ensures WiperNumber(ws[0]) == FirmwareNumber(vs[0])
    ensures FirmwareMegabytes(vs) == FirmwareNumber(vs[|vs| - 1])
  {
    FilesAlign(lines);
    FirmwareTakesTheLast(vs);
    WiperErases(ws);
    WiperCountsMegabytes(ws[0]);
    OneValueOneSize(vs[0]);
    MegabytesAreInjective(WiperNumber(ws[0]).value, FirmwareNumber(vs[0]).value);
  }

  // There the erase covers the store exactly when the first `size_mb` is at least
  // the last.
  lemma EraseCoversTheStore(lines: seq<string>, vs: seq<string>, ws: seq<string>, mode: Arith, kvmain: nat)
    requires HeadersClean(lines) && BothBuild(lines, vs, ws) && Accepted(mode, FirmwareFlash(lines), kvmain)
    ensures vs != [] && FirmwareNumber(vs[0]).Some? && FirmwareNumber(vs[|vs| - 1]).Some?
    ensures ErasesTheStore(mode, lines, kvmain) <==>
            FirmwareNumber(vs[0]).value >= FirmwareNumber(vs[|vs| - 1]).value
  {
    CleanFilesSeeOneList(lines, vs, ws);
    EraseCoversExactly(lines, vs, ws, mode, kvmain);
  }

  // ------------------------------------------------------------ where they disagree

  ghost predicate Decimal(d: string) {
    d != "" && forall i :: 0 <= i < |d| ==> DigitValue(d[i]) < 10
  }

  lemma DecimalIsPlain(d: string)
    requires Decimal(d)
    ensures Trimmed(RustSpace, d) && '#' !in d && '_' !in d && !StartsWith(d, "0x")
    ensures Unquoted(d) == d
  {
    forall i | 0 <= i < |d| ensures d[i] !in "+xmk_#\"MK" && !RustSpace(d[i]) { DigitIsPlain(d[i], 10); }
    assert |d| > 1 ==> d[..2][1] == d[1] && "0x"[1] == 'x';
    TrimmedIsKept(d);
    StripPadded(Quote, "", d, "");
    assert "" + d + "" == d;
  }

  lemma SizeText(d: string)
    requires Decimal(d)
    ensures var line := "size_mb=" + d;
            && Strip(RustSpace, line) == line && IndexOf(line, '=') == Some(7) && '#' !in line
            && line[0] == 's' && line[..7] == "size_mb" && line[8..] == d
  {
    var line := "size_mb=" + d;
    DecimalIsPlain(d);
    assert line[0] == 's' && line[|line| - 1] == d[|d| - 1];
    TrimmedIsKept(line);
    assert line[..7] == "size_mb" && line[8..] == d;
    IndexOfIs(line, '=', 7);
  }

  // `size_mb=<n>` reads alike in both scripts.
  lemma SizeLine(d: string)
    requires Decimal(d)
    ensures FirmwareLine("size_mb=" + d) == Key("size_mb", d) == WiperLine("size_mb=" + d)
  {
    var line := "size_mb=" + d;
    SizeText(d);
    DecimalIsPlain(d);
    TrimmedIsKept("size_mb");
    TrimmedIsKept(d);
    NoHashNoComment(d, false);
    FirmwareKey(line, 7);
    assert BeforeHash(line) == line;
    WiperKey(line, line, 7);
  }

  lemma SizeNumber(n: nat)
    ensures Decimal(Print(n, 10)) && FirmwareNumber(Print(n, 10)) == if n < U32 then Some(n) else None
  {
    var d := Print(n, 10);
    PrintReadsBack(n, 10);
    DecimalIsPlain(d);
    NoUnderscores(d);
    ParsePrinted(n, 10);
  }

  lemma FlashHeader()
    ensures FirmwareLine("[flash]") == Section("flash") == WiperLine("[flash]")
  {
    assert '#' !in "[flash]";
    TrimmedIsKept("[flash]");
    assert "[flash]" == "[" + "flash" + "]";
    HeaderNames("flash");
  }

  lemma HeaderNames(name: string)
    requires Trimmed(RustSpace, name)
    ensures Classify("[" + name + "]") == Section(name)
  {
    var t := "[" + name + "]";
    assert t[1..|t| - 1] == name;
    TrimmedIsKept(name);
  }

  // The size lines that follow a `[flash]` header.
  ghost function SizeLines(a: string, b: string): seq<string> {
    ["[flash]", "size_mb=" + a, "size_mb=" + b]
  }

  // One line at a time, whatever follows it.
  lemma SizeIsNext(d: string, rest: seq<string>)
    requires Decimal(d)
    ensures FirmwareValues(["size_mb=" + d] + rest, "flash") == [d] + FirmwareValues(rest, "flash")
    ensures WiperValues(["size_mb=" + d] + rest, "flash", "size_mb", true) ==
            [d] + WiperValues(rest, "flash", "size_mb", true)
    ensures WiperValues(["size_mb=" + d] + rest, "flash", "size_mb", false) ==
            WiperValues(rest, "flash", "size_mb", false)
  {
    SizeLine(d);
    assert (["size_mb=" + d] + rest)[1..] == rest;
  }

  lemma HeaderIsNext(rest: seq<string>)
    ensures FirmwareValues(["[flash]"] + rest, "") == FirmwareValues(rest, "flash")
    ensures WiperValues(["[flash]"] + rest, "flash", "size_mb", false) == WiperValues(rest, "flash", "size_mb", true)
  {
    FlashHeader();
    assert (["[flash]"] + rest)[1..] == rest;
  }

  lemma BothReadTwo(a: string, b: string)
    requires Decimal(a) && Decimal(b)
    ensures FirmwareValues(SizeLines(a, b), "") == WiperValues(SizeLines(a, b), "flash", "size_mb", false) == [a, b]
  {
    SizeIsNext(b, []);
    SizeIsNext(a, ["size_mb=" + b] + []);
    HeaderIsNext(["size_mb=" + a] + (["size_mb=" + b] + []));
    assert SizeLines(a, b) == ["[flash]"] + (["size_mb=" + a] + (["size_mb=" + b] + []));
  }

  lemma LastOfTwo(a: string, b: string)
    requires FirmwareNumber(a).Some? && FirmwareNumber(b).Some?
    ensures Last([a, b], None) == Size(FirmwareNumber(b))
  {
    assert [a, b][1..] == [b] && [b][1..] == [];
    assert Last([b], FirmwareNumber(a)) == Last([], FirmwareNumber(b));
  }

  lemma FirmwareTakesLast(a: nat, b: nat)
    requires a < U32 && b <= 16
    ensures FirmwareFlashOf([Print(a, 10), Print(b, 10)]) == Some(b * 1048576)
  {
    SizeNumber(a);
    SizeNumber(b);
    LastOfTwo(Print(a, 10), Print(b, 10));
    MegaText(b);
    Megabytes(b);
  }

  lemma WiperTakesFirst(a: nat, more: seq<string>)
    requires 1 <= a <= 16
    ensures WiperFlashOf([Print(a, 10)] + more) == Some(a * 1048576)
  {
    MegaText(a);
    Megabytes(a);
  }

  lemma Megabytes(mb: nat)
    requires mb <= 16
    ensures CheckedMul(mb, 1048576) == Some(mb * 1048576) && mb * 1048576 % 4096 == 0
  {
    assert mb * 1048576 == 4096 * (mb * 256);
  }

  // With the default KVMAIN the layout is accepted and the whole store lies above
  // the erased range.
  ghost predicate LeftBehind(flash: nat, erased: nat)
    requires flash <= MAX_FLASH
  {
    forall mode :: LayoutFits(mode, flash, DEFAULT_KVMAIN) &&
      var l := MemoryLayout(mode, flash, DEFAULT_KVMAIN);
      l.Some? && l.value.kvmainAt >= FLASH_BASE + erased
  }

  lemma SixteenOverFour()
    ensures LeftBehind(16 * 1048576, 4 * 1048576)
  {
    forall mode: Arith ensures LayoutFits(mode, 16 * 1048576, DEFAULT_KVMAIN) {}
    forall mode: Arith { PlainLayout(mode, 16 * 1048576, DEFAULT_KVMAIN); }
  }

  // A repeated key: the firmware lays the store out at the top of 16 MB and the
  // wiper erases the first 4 MB of it, with no diagnostic from either build.
  lemma RepeatedKeyLeavesTheStore()
    ensures FirmwareFlash(SizeLines(Print(4, 10), Print(16, 10))) == Some(16 * 1048576)
    ensures WiperFlash(SizeLines(Print(4, 10), Print(16, 10))) == Some(4 * 1048576)
    ensures LeftBehind(16 * 1048576, 4 * 1048576)
  {
    SizeNumber(4);
    SizeNumber(16);
    BothReadTwo(Print(4, 10), Print(16, 10));
    FirmwareTakesLast(4, 16);
    SixteenOverFour();
    WiperTakesFirst(4, [Print(16, 10)]);
  }

  // A comment after a section header: only the wiper sees the section change.
  lemma CommentedHeader()
    ensures FirmwareLine("[x] # y") == Nothing && WiperLine("[x] # y") == Section("x")
  {
    CommentedHeaderIsSkipped();
    CommentedHeaderIsRead();
  }

  lemma CommentedHeaderIsSkipped()
    ensures FirmwareLine("[x] # y") == Nothing
  {
    var t := "[x] # y";
    TrimmedIsKept(t);
    assert '=' !in t;
  }

  lemma HeaderBeforeComment()
    ensures Strip(RustSpace, BeforeHash("[x] # y")) == "[x]"
  {
    var t := "[x] # y";
    IndexOfIs(t, '#', 4);
    StripPadded(RustSpace, "", "[x]", " ");
    assert t[..4] == "" + "[x]" + " ";
  }

  lemma CommentedHeaderIsRead()
    ensures WiperLine("[x] # y") == Section("x")
  {
    TrimmedIsKept("[x] # y");
    HeaderBeforeComment();
    assert "[x]" == "[" + "x" + "]";
    HeaderNames("x");
  }

  ghost function SplitLines(a: string, b: string): seq<string> {
    ["[flash]", "size_mb=" + a, "[x] # y", "size_mb=" + b]
  }

  lemma CommentedIsNext(rest: seq<string>)
    ensures FirmwareValues(["[x] # y"] + rest, "flash") == FirmwareValues(rest, "flash")
    ensures WiperValues(["[x] # y"] + rest, "flash", "size_mb", true) == WiperValues(rest, "flash", "size_mb", false)
  {
    CommentedHeader();
    assert |"x"| != |"flash"|;
    assert (["[x] # y"] + rest)[1..] == rest;
  }

  lemma OneReadsTwo(a: string, b: string)
    requires Decimal(a) && Decimal(b)
    ensures FirmwareValues(SplitLines(a, b), "") == [a, b]
    ensures WiperValues(SplitLines(a, b), "flash", "size_mb", false) == [a]
  {
    var last := ["size_mb=" + b] + [];
    SizeIsNext(b, []);
    CommentedIsNext(last);
    SizeIsNext(a, ["[x] # y"] + last);
    HeaderIsNext(["size_mb=" + a] + (["[x] # y"] + last));
    SplitLinesAre(a, b);
  }

  lemma SplitLinesAre(a: string, b: string)
    ensures SplitLines(a, b) == ["[flash]"] + (["size_mb=" + a] + (["[x] # y"] + (["size_mb=" + b] + [])))
  {}

  lemma CommentedHeaderLeavesTheStore()
    ensures FirmwareFlash(SplitLines(Print(4, 10), Print(16, 10))) == Some(16 * 1048576)
    ensures WiperFlash(SplitLines(Print(4, 10), Print(16, 10))) == Some(4 * 1048576)
    ensures LeftBehind(16 * 1048576, 4 * 1048576)
  {
    SizeNumber(4);
    SizeNumber(16);
    OneReadsTwo(Print(4, 10), Print(16, 10));
    FirmwareTakesLast(4, 16);
    SixteenOverFour();
    WiperTakesFirst(4, []);
  }
}
