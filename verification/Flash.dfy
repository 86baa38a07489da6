// The flash layout: code at the bottom, KVMAIN above it, KVCNT at the top, all
// below the sector the RP2350-E10 erratum owns.
module Flash {
  import opened Text
  import opened Sizes

  const FLASH_BASE: nat := 0x1000_0000
  const DEFAULT_FLASH_SIZE: nat := 4 * 1024 * 1024
  const DEFAULT_KVMAIN: nat := 1408 * 1024
  const KVCNT_LEN: nat := 128 * 1024
  const MIN_CODE: nat := 1024 * 1024
  const E10_ABS_BLOCK_SECTOR: nat := 0xFFF_000
  const MAX_FLASH: nat := 16 * 1024 * 1024
  const MIN_KVMAIN: nat := 128 * 1024
  const SECTOR: nat := 4096

  function UsableFlash(flash: nat): nat {
    if flash < E10_ABS_BLOCK_SECTOR then flash else E10_ABS_BLOCK_SECTOR
  }

  // u32 arithmetic of a build script: with overflow checks it aborts, without
  // them it wraps.
  datatype Arith = Checked | Wrapping

  function Add(mode: Arith, a: nat, b: nat): (r: Option<nat>)
    requires a < U32 && b < U32
    ensures r.Some? ==> r.value < U32
  {
    if a + b < U32 then Some(a + b) else if mode == Checked then None else Some(a + b - U32)
  }

  function Sub(mode: Arith, a: nat, b: nat): (r: Option<nat>)
    requires a < U32 && b < U32
    ensures r.Some? ==> r.value < U32
  {
    if a >= b then Some(a - b) else if mode == Checked then None else Some(a + U32 - b)
  }

  // None is a build that stops.
  function ResolveFlashSize(raw: string): (r: Option<nat>)
    ensures r.Some? ==> r.value % SECTOR == 0 && r.value <= MAX_FLASH
  {
    match ParseSize(Strip(RustSpace, raw))
    case Some(bytes) => if bytes % SECTOR == 0 && bytes <= MAX_FLASH then Some(bytes) else None
    case None => None
  }

  function ResolveKvmainLen(raw: string): (r: Option<nat>)
    ensures r.Some? ==> r.value % SECTOR == 0 && MIN_KVMAIN <= r.value < U32
  {
    match ParseSize(Strip(RustSpace, raw))
    case Some(bytes) => if bytes % SECTOR == 0 && bytes >= MIN_KVMAIN then Some(bytes) else None
    case None => None
  }

  // `assert_layout_fits`: whether the build goes on.
  predicate LayoutFits(mode: Arith, flash: nat, kvmain: nat)
    requires flash <= MAX_FLASH && kvmain < U32
  {
    var kv := Add(mode, kvmain, KVCNT_LEN);
    kv.Some? && UsableFlash(flash) > kv.value && UsableFlash(flash) - kv.value >= MIN_CODE
  }

  // What the linker script is given: origins, and lengths in whole kilobytes.
  datatype Layout = Layout(codeK: nat, kvmainAt: nat, kvmainK: nat, kvcntAt: nat, kvcntK: nat)

  function MemoryLayout(mode: Arith, flash: nat, kvmain: nat): Option<Layout>
    requires flash <= MAX_FLASH && kvmain < U32
  {
    var room := Sub(mode, UsableFlash(flash), kvmain);
    if room.None? then None else
    var code := Sub(mode, room.value, KVCNT_LEN);
    if code.None? then None else
    var kvmainAt := Add(mode, FLASH_BASE, code.value);
    if kvmainAt.None? then None else
    var kvcntAt := Add(mode, kvmainAt.value, kvmain);
    if kvcntAt.None? then None
    else Some(Layout(code.value / 1024, kvmainAt.value, kvmain / 1024, kvcntAt.value, KVCNT_LEN / 1024))
  }

  // `e` is how far up the layout may reach: the highest sector boundary that is on the
  // chip and not above the sector the erratum owns.
  ghost predicate Top(flash: nat, e: nat) {
    && e % 4096 == 0 && e <= flash && e <= 0xFFF_000
    && forall x: nat :: x % 4096 == 0 && x <= flash && x <= 0xFFF_000 ==> x <= e
  }

  lemma UsableIsTop(flash: nat)
    requires flash % SECTOR == 0
    ensures Top(flash, UsableFlash(flash)) && forall e: nat :: Top(flash, e) ==> e == UsableFlash(flash)
  {
    assert 0xFFF_000 % 4096 == 0;
  }

  // The three regions tile the usable flash: each starts where the one before it
  // ends, on a sector boundary; the kilobyte lengths lose nothing; the code region
  // is large enough; the last byte is below the erratum's sector and on the chip.
  ghost predicate Tiles(l: Layout, flash: nat, kvmain: nat) {
    && l.kvmainAt == FLASH_BASE + l.codeK * 1024
    && l.kvcntAt == l.kvmainAt + l.kvmainK * 1024
    && l.kvmainK * 1024 == kvmain && l.kvcntK * 1024 == KVCNT_LEN
    && (exists e: nat :: Top(flash, e) && l.kvcntAt + l.kvcntK * 1024 == 0x1000_0000 + e)
    && l.codeK * 1024 >= 1024 * 1024
    && l.kvmainAt % SECTOR == 0 && l.kvcntAt % SECTOR == 0 && (l.codeK * 1024) % SECTOR == 0
    && l.kvcntAt + l.kvcntK * 1024 <= FLASH_BASE + flash
    && l.kvcntAt + l.kvcntK * 1024 <= FLASH_BASE + E10_ABS_BLOCK_SECTOR
  }

  lemma SectorsAreKilobytes(n: nat)
    requires n % SECTOR == 0
    ensures n / 1024 * 1024 == n
  {
    var k := n / 4096;
    assert n == 1024 * (4 * k);
    assert n / 1024 == 4 * k;
  }

  lemma AlignedDifference(a: nat, b: nat, c: nat)
    requires a % SECTOR == 0 && b % SECTOR == 0 && c % SECTOR == 0 && a >= b + c
    ensures (a - b - c) % SECTOR == 0 && (a + b) % SECTOR == 0
  {
    var x, y, z := a / 4096, b / 4096, c / 4096;
    assert a == 4096 * x && b == 4096 * y && c == 4096 * z;
  }

  // Without overflow both modes compute the plain numbers.
  lemma PlainLayout(mode: Arith, flash: nat, kvmain: nat)
    requires flash <= MAX_FLASH && kvmain + KVCNT_LEN < UsableFlash(flash)
    ensures var code := UsableFlash(flash) - kvmain - KVCNT_LEN;
            MemoryLayout(mode, flash, kvmain) ==
            Some(Layout(code / 1024, FLASH_BASE + code, kvmain / 1024, FLASH_BASE + code + kvmain, KVCNT_LEN / 1024))
  {}

  lemma SumFitsLayout(mode: Arith, flash: nat, kvmain: nat)
    requires flash <= MAX_FLASH && flash % SECTOR == 0
    requires MIN_KVMAIN <= kvmain < U32 && kvmain % SECTOR == 0
    requires LayoutFits(mode, flash, kvmain) && kvmain + KVCNT_LEN < U32
    ensures MemoryLayout(mode, flash, kvmain).Some? && Tiles(MemoryLayout(mode, flash, kvmain).value, flash, kvmain)
  {
    var usable := UsableFlash(flash);
    var code := usable - kvmain - KVCNT_LEN;
    PlainLayout(mode, flash, kvmain);
    AlignedDifference(usable, kvmain, KVCNT_LEN);
    AlignedDifference(usable, KVCNT_LEN, 0);
    SectorsAreKilobytes(code);
    SectorsAreKilobytes(kvmain);
    AlignedDifference(FLASH_BASE, code, 0);
    AlignedDifference(FLASH_BASE + code, kvmain, 0);
    UsableIsTop(flash);
  }

  // Which splits the build accepts: the two partitions and a megabyte of code go below
  // the top. Where the sum overflows, only without the checks, and by its remainder.
  lemma AcceptedExactly(mode: Arith, flash: nat, kvmain: nat, e: nat)
    requires flash <= MAX_FLASH && flash % SECTOR == 0 && kvmain < U32 && Top(flash, e)
    ensures var kv := kvmain + 0x2_0000;
            LayoutFits(mode, flash, kvmain) <==>
              if kv < 0x1_0000_0000 then kv + 0x10_0000 <= e
              else mode == Wrapping && kv - 0x1_0000_0000 + 0x10_0000 <= e
  {
    UsableIsTop(flash);
  }

  // An accepted pair is laid out properly exactly when the 32-bit sum of the two
  // store partitions does not overflow; with overflow checks it never does.
  lemma AcceptedTilesExactly(mode: Arith, flash: nat, kvmain: nat)
    requires flash <= MAX_FLASH && flash % SECTOR == 0
    requires MIN_KVMAIN <= kvmain < U32 && kvmain % SECTOR == 0
    requires LayoutFits(mode, flash, kvmain)
    ensures mode == Checked ==> kvmain + KVCNT_LEN < U32
    ensures (MemoryLayout(mode, flash, kvmain).Some? && Tiles(MemoryLayout(mode, flash, kvmain).value, flash, kvmain))
            <==> kvmain + KVCNT_LEN < U32
  {
    if kvmain + KVCNT_LEN < U32 {
      SumFitsLayout(mode, flash, kvmain);
    } else {
      SectorsAreKilobytes(kvmain);
      var l := MemoryLayout(mode, flash, kvmain);
      assert l.Some? ==> l.value.kvmainK * 1024 == kvmain;
    }
  }

  // Without the checks such a pair is accepted: KVMAIN=4194176K on a 4 MB chip.
  lemma WrappedSumIsAccepted()
    ensures ResolveFlashSize("4M") == Some(DEFAULT_FLASH_SIZE)
    ensures ResolveKvmainLen("4194176K") == Some(0xFFFE_0000)
    ensures LayoutFits(Wrapping, DEFAULT_FLASH_SIZE, 0xFFFE_0000)
    ensures !LayoutFits(Checked, DEFAULT_FLASH_SIZE, 0xFFFE_0000)
  {
    DefaultText();
    WrappingText();
    var kv := 0xFFFE_0000 + KVCNT_LEN;
    assert kv == U32;
  }

  lemma DefaultText()
    ensures ResolveFlashSize("4M") == Some(DEFAULT_FLASH_SIZE)
  {
    SizesReadBack(4, false, "M", 1048576);
    assert Number(4, false) + "M" == "4M";
    TrimmedIsKept("4M");
  }

  lemma WrappingText()
    ensures ResolveKvmainLen("4194176K") == Some(0xFFFE_0000)
  {
    SizesReadBack(4194176, false, "K", 1024);
    WrappingNumber();
    assert "4194176" + "K" == "4194176K";
    TrimmedIsKept("4194176K");
  }

  lemma WrappingNumber()
    ensures Number(4194176, false) == "4194176"
  {
    assert Print(41, 10) == Print(4, 10) + ['1'] == "41";
    assert Print(419, 10) == Print(41, 10) + ['9'] == "419";
    assert Print(4194, 10) == Print(419, 10) + ['4'] == "4194";
    assert Print(41941, 10) == Print(4194, 10) + ['1'] == "41941";
    assert Print(419417, 10) == Print(41941, 10) + ['7'] == "419417";
    assert Print(4194176, 10) == Print(419417, 10) + ['6'] == "4194176";
  }

  // The defaults give the numbers the checked-in linker script states.
  lemma DefaultIsTheTemplate(mode: Arith)
    ensures LayoutFits(mode, DEFAULT_FLASH_SIZE, DEFAULT_KVMAIN)
    ensures MemoryLayout(mode, DEFAULT_FLASH_SIZE, DEFAULT_KVMAIN) ==
            Some(Layout(2560, 0x1028_0000, 1408, 0x103E_0000, 128))
  {}
}
