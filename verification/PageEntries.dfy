/** What page-table entries and virtual page numbers mean, apart from the masks and
    shifts the walk tests them with. */
module PageEntries {
  import opened Powers
  import opened PageTables

  // ---------------------------------------------------------------- entry types

  datatype Rights = Rights(read: bool, write: bool, execute: bool)

  const NO_RIGHTS := Rights(false, false, false)
  const R := Rights(true, false, false)
  const RW := Rights(true, true, false)
  const RX := Rights(true, false, true)
  const RWX := Rights(true, true, true)

  /** The types by name: what a user and a supervisor may do. SR types are the supervisor's
      own, and come in a global form too. */
  datatype EntryType =
    | TABLE | URX_SR | URWX_SRW | UR_SR | URW_SRW | URX_SRX | URWX_SRWX
    | SR | SRW | SRX | SRWX
  {
    function User(): Rights {
      match this
      case URX_SR | URX_SRX => RX
      case URWX_SRW | URWX_SRWX => RWX
      case UR_SR => R
      case URW_SRW => RW
      case _ => NO_RIGHTS
    }

    function Supervisor(): Rights {
      match this
      case TABLE => NO_RIGHTS
      case URX_SR | UR_SR | SR => R
      case URWX_SRW | URW_SRW | SRW => RW
      case URX_SRX | SRX => RX
      case URWX_SRWX | SRWX => RWX
    }
  }

  predicate Valid(pte: nat) { pte % 2 == 1 }

  /** The type field, bits 1 to 4, by the value each name has. */
  function TypeOf(pte: nat): EntryType {
    var t := pte / 2 % 16 * 2;
    if t == 0x00 || t == 0x02 then TABLE
    else if t == 0x04 then URX_SR
    else if t == 0x06 then URWX_SRW
    else if t == 0x08 then UR_SR
    else if t == 0x0A then URW_SRW
    else if t == 0x0C then URX_SRX
    else if t == 0x0E then URWX_SRWX
    else if t == 0x10 || t == 0x18 then SR
    else if t == 0x12 || t == 0x1A then SRW
    else if t == 0x14 || t == 0x1C then SRX
    else SRWX
  }

  predicate Grants(rights: Rights, access: Access) {
    match access case Load => rights.read case Store => rights.write case Fetch => rights.execute
  }

  /** A bit of a mask is a bit of one of its hexadecimal digits. */
  lemma {:induction false} DigitBit(mask: nat, j: nat, i: nat)
    ensures Bit(mask, 4 * j + i) == Bit(Digit(mask, j), i)
    decreases j
  {
    hide Pow2;
    if j > 0 {
      var p := Pow2(4 * (j - 1) + i);
      Pow2Add(4 * (j - 1) + i, 4);
      SmallPowers();
      assert 4 * (j - 1) + i + 4 == 4 * j + i;
      DivTwice(mask, 16, p);
      DigitBit(mask / 16, j - 1, i);
    }
  }

  lemma SmallPowers()
    ensures Pow2(0) == 1 && Pow2(1) == 2 && Pow2(2) == 4 && Pow2(3) == 8 && Pow2(4) == 16
  {
  }

  /** What is left of a mask above its digits below j. */
  function Digit(mask: nat, j: nat): nat { if j == 0 then mask else Digit(mask / 16, j - 1) }

  /** The bits of the digits the masks are made of. */
  lemma DigitIs(digit: nat, low: nat, i: nat)
    requires digit % 16 == low && i < 4 && (low == 0 || low == 8 || low == 0xA)
    ensures Bit(digit, i) == (if low == 0xA then i % 2 == 1 else low == 8 && i == 3)
  {
    SmallPowers();
    hide Pow2;
    var q := digit / 16;
    assert digit == 16 * q + low;
    if i == 0 {
      assert digit / 1 == 16 * q + low;
    } else if i == 1 {
      assert digit / 2 == 8 * q + low / 2;
    } else if i == 2 {
      assert digit / 4 == 4 * q + low / 4;
    } else {
      assert digit / 8 == 2 * q + low / 8;
    }
  }

  lemma {:induction false} NoDigits(j: nat)
    ensures Digit(0, j) == 0
  {
    if j > 0 {
      NoDigits(j - 1);
    }
  }

  lemma LoadDigits(j: nat)
    requires j < 8
    ensures Digit(0xAAAA_AAA0, j) % 16 == (if j >= 1 then 0xA else 0) && Digit(0xAAA0, j) % 16 == (if 1 <= j < 4 then 0xA else 0)
  {
    if j == 0 {
      assert Digit(0xAAAA_AAA0, 0) == 0xAAAA_AAA0 && Digit(0xAAA0, 0) == 0xAAA0;
    } else if j == 1 {
      assert Digit(0xAAAA_AAA0, 1) == 0xAAA_AAAA && Digit(0xAAA0, 1) == 0xAAA;
    } else if j == 2 {
      assert Digit(0xAAAA_AAA0, 2) == 0xAA_AAAA && Digit(0xAAA0, 2) == 0xAA;
    } else if j == 3 {
      assert Digit(0xAAAA_AAA0, 3) == 0xA_AAAA && Digit(0xAAA0, 3) == 0xA;
    } else if j == 4 {
      assert Digit(0xAAAA_AAA0, 4) == 0xAAAA && Digit(0xAAA0, 4) == 0x0;
    } else if j == 5 {
      assert Digit(0xAAAA_AAA0, 5) == 0xAAA && Digit(0xAAA0, 5) == 0x0;
    } else if j == 6 {
      assert Digit(0xAAAA_AAA0, 6) == 0xAA && Digit(0xAAA0, 6) == 0x0;
    } else {
      assert Digit(0xAAAA_AAA0, 7) == 0xA && Digit(0xAAA0, 7) == 0x0;
    }
  }

  lemma LoadMasks(j: nat, i: nat)
    requires j < 8 && i < 4
    ensures Bit(0xAAAA_AAA0, 4 * j + i) == (i % 2 == 1 && j >= 1) && Bit(0xAAA0, 4 * j + i) == (i % 2 == 1 && 1 <= j < 4)
  {
    hide Bit, Digit;
    DigitBit(0xAAAA_AAA0, j, i);
    DigitBit(0xAAA0, j, i);
    LoadDigits(j);
    DigitIs(Digit(0xAAAA_AAA0, j), if j >= 1 then 0xA else 0, i);
    DigitIs(Digit(0xAAA0, j), if 1 <= j < 4 then 0xA else 0, i);
  }

  lemma StoreDigits(j: nat)
    requires j < 8
    ensures Digit(0x8888_8880, j) % 16 == (if j >= 1 then 8 else 0) && Digit(0x8880, j) % 16 == (if 1 <= j < 4 then 8 else 0)
  {
    if j == 0 {
      assert Digit(0x8888_8880, 0) == 0x8888_8880 && Digit(0x8880, 0) == 0x8880;
    } else if j == 1 {
      assert Digit(0x8888_8880, 1) == 0x888_8888 && Digit(0x8880, 1) == 0x888;
    } else if j == 2 {
      assert Digit(0x8888_8880, 2) == 0x88_8888 && Digit(0x8880, 2) == 0x88;
    } else if j == 3 {
      assert Digit(0x8888_8880, 3) == 0x8_8888 && Digit(0x8880, 3) == 0x8;
    } else if j == 4 {
      assert Digit(0x8888_8880, 4) == 0x8888 && Digit(0x8880, 4) == 0x0;
    } else if j == 5 {
      assert Digit(0x8888_8880, 5) == 0x888 && Digit(0x8880, 5) == 0x0;
    } else if j == 6 {
      assert Digit(0x8888_8880, 6) == 0x88 && Digit(0x8880, 6) == 0x0;
    } else {
      assert Digit(0x8888_8880, 7) == 0x8 && Digit(0x8880, 7) == 0x0;
    }
  }

  lemma StoreMasks(j: nat, i: nat)
    requires j < 8 && i < 4
    ensures Bit(0x8888_8880, 4 * j + i) == (i == 3 && j >= 1) && Bit(0x8880, 4 * j + i) == (i == 3 && 1 <= j < 4)
  {
    hide Bit, Digit;
    DigitBit(0x8888_8880, j, i);
    DigitBit(0x8880, j, i);
    StoreDigits(j);
    DigitIs(Digit(0x8888_8880, j), if j >= 1 then 8 else 0, i);
    DigitIs(Digit(0x8880, j), if 1 <= j < 4 then 8 else 0, i);
  }

  lemma FetchDigits(j: nat)
    requires j < 8
    ensures Digit(0xA0A0_A000, j) % 16 == (if j >= 3 && j % 2 == 1 then 0xA else 0) && Digit(0xA0A0, j) % 16 == (if j == 1 || j == 3 then 0xA else 0)
  {
    if j == 0 {
      assert Digit(0xA0A0_A000, 0) == 0xA0A0_A000 && Digit(0xA0A0, 0) == 0xA0A0;
    } else if j == 1 {
      assert Digit(0xA0A0_A000, 1) == 0xA0A_0A00 && Digit(0xA0A0, 1) == 0xA0A;
    } else if j == 2 {
      assert Digit(0xA0A0_A000, 2) == 0xA0_A0A0 && Digit(0xA0A0, 2) == 0xA0;
    } else if j == 3 {
      assert Digit(0xA0A0_A000, 3) == 0xA_0A0A && Digit(0xA0A0, 3) == 0xA;
    } else if j == 4 {
      assert Digit(0xA0A0_A000, 4) == 0xA0A0 && Digit(0xA0A0, 4) == 0x0;
    } else if j == 5 {
      assert Digit(0xA0A0_A000, 5) == 0xA0A && Digit(0xA0A0, 5) == 0x0;
    } else if j == 6 {
      assert Digit(0xA0A0_A000, 6) == 0xA0 && Digit(0xA0A0, 6) == 0x0;
    } else {
      assert Digit(0xA0A0_A000, 7) == 0xA && Digit(0xA0A0, 7) == 0x0;
    }
  }

  lemma FetchMasks(j: nat, i: nat)
    requires j < 8 && i < 4
    ensures Bit(0xA0A0_A000, 4 * j + i) == (i % 2 == 1 && j % 2 == 1 && j >= 3) && Bit(0xA0A0, 4 * j + i) == (i % 2 == 1 && (j == 1 || j == 3))
  {
    hide Bit, Digit;
    DigitBit(0xA0A0_A000, j, i);
    DigitBit(0xA0A0, j, i);
    FetchDigits(j);
    DigitIs(Digit(0xA0A0_A000, j), if j >= 3 && j % 2 == 1 then 0xA else 0, i);
    DigitIs(Digit(0xA0A0, j), if j == 1 || j == 3 then 0xA else 0, i);
  }

  /** The masks grant exactly what the valid entry's type says for the privilege. */
  lemma PermitsExactly(pte: nat, supervisor: bool, access: Access)
    ensures Permits(pte, supervisor, access) <==>
            Valid(pte) && Grants(if supervisor then TypeOf(pte).Supervisor() else TypeOf(pte).User(), access)
  {
    hide Bit;
    KeyParts(pte);
    var j, i := pte / 4 % 8, pte % 4;
    LoadMasks(j, i);
    StoreMasks(j, i);
    FetchMasks(j, i);
  }

  /** The five low bits by their four-bit digit and the rest. */
  lemma KeyParts(pte: nat)
    ensures pte % 32 == 4 * (pte / 4 % 8) + pte % 4 && pte % 4 % 2 == pte % 2 && pte / 2 % 16 == 2 * (pte / 4 % 8) + pte / 2 % 2
    ensures pte % 4 == 2 * (pte / 2 % 2) + pte % 2
  {
    var h := pte / 2;
    assert h / 2 == pte / 4;
    DivModUnique(pte / 32, 4 * (pte / 4 % 8) + pte % 4, 32);
    DivModUnique(h / 16, 2 * (h / 2 % 8) + h % 2, 16);
  }

  lemma TableDigits(j: nat)
    ensures Digit(0xA, j) == if j == 0 then 0xA else 0
  {
    if j > 0 {
      NoDigits(j - 1);
    }
  }

  /** An entry points to a table exactly when it is valid and of a table type. */
  lemma TableExactly(pte: nat)
    ensures IsTable(pte) <==> Valid(pte) && TypeOf(pte) == TABLE
  {
    hide Bit;
    KeyParts(pte);
    var j, i := pte / 4 % 8, pte % 4;
    hide Digit;
    DigitBit(0xA, j, i);
    TableDigits(j);
    DigitIs(Digit(0xA, j), if j == 0 then 0xA else 0, i);
  }

  /** Who may store may load; who may anything as a user may load as a supervisor, and a
      table is no leaf. */
  lemma RightsNest(pte: nat, supervisor: bool, access: Access)
    ensures Permits(pte, supervisor, Store) ==> Permits(pte, supervisor, Load)
    ensures Permits(pte, supervisor, access) ==> Permits(pte, true, Load)
    ensures Permits(pte, false, Store) ==> Permits(pte, true, Store)
    ensures Permits(pte, supervisor, access) ==> !IsTable(pte)
  {
    hide Permits, IsTable;
    PermitsExactly(pte, supervisor, Store);
    PermitsExactly(pte, supervisor, Load);
    PermitsExactly(pte, supervisor, access);
    PermitsExactly(pte, true, Load);
    PermitsExactly(pte, false, Store);
    PermitsExactly(pte, true, Store);
    TableExactly(pte);
  }

  // ----------------------------------------------------------- frames and flags

  /** An entry made of a frame number and low bits leads to that frame. */
  lemma FrameRead(frame: nat, low: nat)
    requires low < 1024 && frame < 0x10_0000_0000_0000
    ensures (frame * 1024 + low) / 1024 == frame && Next(frame * 1024 + low) == frame * PAGE
    ensures FrameOf(Leaf(0, (frame * 1024 + low) / 1024, 0), 0) == frame * PAGE
  {
    DivModUnique(frame, low, 1024);
    DivModUnique(0, frame * PAGE, WORD);
  }

  /** A walk sets R; only a store's sets D; nothing else changes. */
  lemma FlagsExactly(b: Byte, access: Access)
    ensures var r := WithRD(b, access);
      && r / 32 % 2 == 1 && (r / 64 % 2 == 1 <==> access == Store || b / 64 % 2 == 1)
      && r % 32 == b % 32 && r / 128 == b / 128
  {
  }

  // ------------------------------------------------------------- page numbers

  /** The width of a virtual address. */
  function Width(s: Scheme): nat { match s case Sv32 => 32 case Sv39 => 39 case Sv48 => 48 }

  /** A table is a page of entries, and the levels' indices and the offset make the
      address the scheme is named after. */
  lemma SchemeShape(s: Scheme)
    ensures Pow2(IndexBits(s)) * PteSize(s) == PAGE
    ensures 12 + Levels(s) * IndexBits(s) == Width(s)
  {
    assert Pow2(9) == 512 && Pow2(10) == 1024;
  }

  /** Where a table starts. */
  type Base = b: nat | b % PAGE == 0

  /** Which entry of the table at base a level reads. */
  function EntryRead(s: Scheme, base: Base, vpn: nat, level: nat): nat
    requires level > 0
  {
    (Slot(s, base, vpn, level) - base) / PteSize(s)
  }

  lemma EntryIs(s: Scheme, base: Base, vpn: nat, level: nat)
    requires level > 0
    ensures EntryRead(s, base, vpn, level) == vpn / Pow2(Shift(s, level)) % Pow2(IndexBits(s))
  {
    hide Index, Pow2, Shift, IndexBits;
    DivModUnique(Index(s, vpn, level), 0, PteSize(s));
    IndexIs(s, vpn, level);
  }

  lemma IndexIs(s: Scheme, vpn: nat, level: nat)
    requires level > 0
    ensures Index(s, vpn, level) == vpn / Pow2(Shift(s, level)) % Pow2(IndexBits(s))
  {
  }

  /** Which entries of their tables the lower levels read, as the digits of one number;
      level k's table is at bases[k - 1]. */
  function Digits(s: Scheme, bases: seq<Base>, vpn: nat): nat {
    var level := |bases|;
    if level == 0 then 0
    else EntryRead(s, bases[level - 1], vpn, level) * Pow2(Shift(s, level)) + Digits(s, bases[..level - 1], vpn)
  }

  /** They are the low bits of the page number, each its own: no two pages of an address
      space share all their entries. */
  lemma {:induction false} IndexDigits(s: Scheme, bases: seq<Base>, vpn: nat)
    ensures Digits(s, bases, vpn) == vpn % Pow2(|bases| * IndexBits(s))
  {
    hide EntryRead, Pow2;
    if bases == [] {
      NoDigitsLeft(vpn);
    } else {
      var level := |bases|;
      IndexDigits(s, bases[..level - 1], vpn);
      EntryIs(s, bases[level - 1], vpn, level);
      var p, q := Pow2(Shift(s, level)), Pow2(IndexBits(s));
      Pow2Add(Shift(s, level), IndexBits(s));
      assert level * IndexBits(s) == Shift(s, level) + IndexBits(s);
      DigitSplits(vpn, p, q);
    }
  }

  lemma NoDigitsLeft(vpn: nat)
    ensures vpn % Pow2(0) == 0
  {
  }

  lemma DigitSplits(v: nat, p: nat, q: nat)
    requires p > 0 && q > 0
    ensures p * q > 0 && v % (p * q) == v / p % q * p + v % p
  {
    var h, l := v / p / q, v / p % q;
    assert v / p == h * q + l;
    assert v == v / p * p + v % p;
    assert v == (h * q + l) * p + v % p;
    assert (h * q + l) * p == h * (p * q) + l * p;
    MulMonotone(p, l + 1, q);
    assert p * (l + 1) == l * p + p;
    MulBound(p, q);
    DivModUnique(h, l * p + v % p, p * q);
  }

  /** A 52-bit page number whose upper bits all copy the scheme's top bit is the sign
      extension of its low ones. */
  lemma CanonicalExactly(s: Scheme, vpn: nat)
    requires vpn < 0x10_0000_0000_0000
    ensures Canonical(s, vpn) <==>
            s == Sv32 || vpn < Pow2(Width(s) - 13) || vpn + Pow2(Width(s) - 13) >= 0x10_0000_0000_0000
  {
    WidePowers();
    hide Pow2;
  }

  lemma WidePowers()
    ensures Pow2(17) == 0x2_0000 && Pow2(19) == 0x8_0000 && Pow2(26) == 0x400_0000 && Pow2(35) == 0x8_0000_0000
  {
    Pow2Values();
    Pow2Add(8, 8);
    Pow2Add(16, 1);
    Pow2Add(16, 3);
    Pow2Add(19, 7);
    Pow2Add(32, 3);
    assert Pow2(1) == 2 && Pow2(3) == 8;
  }
}
