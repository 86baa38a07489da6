// The two board-file readers. One fixes where the store sits, the other how much
// of the chip is erased; both look for `[flash] size_mb`, with different rules for
// comments, repeated keys and number spellings.
module Boards {
  import opened Text
  import opened Sizes

  datatype Entry = Nothing | Section(name: string) | Key(key: string, value: string)

  // A line, already cut and trimmed, as a section header or a key with its raw value.
  function Classify(t: string): Entry {
    if |t| >= 2 && t[0] == '[' && t[|t| - 1] == ']' then Section(Strip(RustSpace, t[1..|t| - 1])) else
    match IndexOf(t, '=')
    case Some(i) => Key(Strip(RustSpace, t[..i]), t[i + 1..])
    case None => Nothing
  }

  predicate Quote(c: char) { c == '"' }

  // ------------------------------------------------------------------ firmware

  // The first `#` outside double quotes.
  function BareHash(s: string, quoted: bool): (r: Option<nat>)
    ensures r.Some? ==> r.value < |s|
  {
    if s == "" then None
    else if s[0] == '#' && !quoted then Some(0)
    else match BareHash(s[1..], if s[0] == '"' then !quoted else quoted)
         case Some(i) => Some(i + 1) case None => None
  }

  function StripComment(s: string): string {
    match BareHash(s, false) case Some(i) => StripRight(RustSpace, s[..i]) case None => s
  }

  function FirmwareLine(line: string): Entry {
    var t := Strip(RustSpace, line);
    if t == "" || t[0] == '#' then Nothing else
    match Classify(t)
    case Key(k, v) => Key(k, Strip(RustSpace, StripComment(v)))
    case other => other
  }

  function Unquoted(v: string): string { Strip(Quote, Strip(RustSpace, v)) }

  function WithoutUnderscores(s: string): string {
    if s == "" then "" else (if s[0] == '_' then "" else [s[0]]) + WithoutUnderscores(s[1..])
  }

  function TrimHex(s: string): string {
    if StartsWith(s, "0x") then TrimHex(s[2..]) else s
  }

  function FirmwareNumber(v: string): Option<nat> {
    var clean := WithoutUnderscores(Unquoted(v));
    ParseU32(TrimHex(clean), if StartsWith(clean, "0x") then 16 else 10)
  }

  predicate IsSize(e: Entry) { e.Key? && e.key == "size_mb" }

  // Every `[flash] size_mb` value, in order, when the reader is in section `sec`.
  function FirmwareValues(lines: seq<string>, sec: string): seq<string> {
    if lines == [] then [] else
    match FirmwareLine(lines[0])
    case Section(s) => FirmwareValues(lines[1..], s)
    case Nothing => FirmwareValues(lines[1..], sec)
    case Key(k, v) => (if sec == "flash" && k == "size_mb" then [v] else []) + FirmwareValues(lines[1..], sec)
  }

  // The build aborts on a value it cannot read; otherwise the last one stands.
  datatype Parsed = Aborts | Size(mb: Option<nat>)

  function Last(values: seq<string>, so_far: Option<nat>): Parsed {
    if values == [] then Size(so_far) else
    match FirmwareNumber(values[0])
    case None => Aborts
    case Some(n) => Last(values[1..], Some(n))
  }

  method ParseToml(lines: seq<string>) returns (r: Parsed)
    ensures r == Last(FirmwareValues(lines, ""), None)
  {
    var sec, mb := "", None;
    assert lines[0..] == lines;
    for i := 0 to |lines|
      invariant Last(FirmwareValues(lines[i..], sec), mb) == Last(FirmwareValues(lines, ""), None)
    {
      assert lines[i..][1..] == lines[i + 1..];
      ghost var rest := FirmwareValues(lines[i + 1..], sec);
      match FirmwareLine(lines[i])
      case Section(s) => sec := s;
      case Nothing =>
      case Key(k, v) =>
        if sec == "flash" && k == "size_mb" {
          assert ([v] + rest)[1..] == rest;
          var n := FirmwareNumber(v);
          if n.None? { return Aborts; }
          mb := n;
        } else {
          assert [] + rest == rest;
        }
    }
    assert lines[|lines|..] == [];
    r := Size(mb);
  }

  // --------------------------------------------------------------------- wiper

  function BeforeHash(s: string): string {
    match IndexOf(s, '#') case Some(i) => s[..i] case None => s
  }

  function WiperLine(line: string): Entry {
    var t := Strip(RustSpace, BeforeHash(Strip(RustSpace, line)));
    match Classify(t)
    case Key(k, v) => Key(k, Strip(Quote, Strip(RustSpace, v)))
    case other => other
  }

  function WiperValues(lines: seq<string>, section: string, key: string, here: bool): seq<string> {
    if lines == [] then [] else
    match WiperLine(lines[0])
    case Section(s) => WiperValues(lines[1..], section, key, s == section)
    case Nothing => WiperValues(lines[1..], section, key, here)
    case Key(k, v) => (if here && k == key then [v] else []) + WiperValues(lines[1..], section, key, here)
  }

  // The first match, section-aware.
  method BoardValue(lines: seq<string>, section: string, key: string) returns (r: Option<string>)
    ensures var vs := WiperValues(lines, section, key, false); r == if vs == [] then None else Some(vs[0])
  {
    var here := false;
    assert lines[0..] == lines;
    for i := 0 to |lines|
      invariant WiperValues(lines[i..], section, key, here) == WiperValues(lines, section, key, false)
    {
      assert lines[i..][1..] == lines[i + 1..];
      match WiperLine(lines[i])
      case Section(s) => here := s == section;
      case Nothing =>
      case Key(k, v) => if here && k == key { return Some(v); }
    }
    assert lines[|lines|..] == [];
    r := None;
  }

  // `FLASH_SIZE` as the wiper reads it: aligned, on the chip, and not degenerate.
  function WiperFlashSize(raw: string): (r: Option<nat>)
    ensures r.Some? ==> r.value % 4096 == 0 && 64 * 1024 <= r.value <= 16 * 1024 * 1024
  {
    match ParseSize(Strip(RustSpace, raw))
    case Some(b) => if b % 4096 == 0 && 64 * 1024 <= b <= 16 * 1024 * 1024 then Some(b) else None
    case None => None
  }
}
