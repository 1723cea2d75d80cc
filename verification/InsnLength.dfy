/** How long an instruction is, told from the ones its first halfword ends in, and what
    that makes of the bytes in memory. */
module InsnLength {
  import opened Powers
  import opened PageTables
  import opened TlbMachine
  import opened Icache

  function TrailingOnes(x: nat): nat {
    if x % 2 == 1 then 1 + TrailingOnes(x / 2) else 0
  }

  /** The encoding's length rule: two bytes for fewer than two ones, four for fewer than
      five, six for five, and otherwise eight. */
  lemma LengthByOnes(first: nat)
    ensures var t := TrailingOnes(first);
            Length(first) == if t < 2 then 2 else if t < 5 then 4 else if t == 5 then 6 else 8
  {
    OnesAtLeast(first, 2);
    OnesAtLeast(first, 5);
    OnesAtLeast(first, 6);
    assert Pow2(2) == 4 && Pow2(5) == 32 && Pow2(6) == 64;
  }

  lemma {:induction false} OnesAtLeast(x: nat, n: nat)
    ensures TrailingOnes(x) >= n <==> x % Pow2(n) == Pow2(n) - 1
  {
    if n > 0 {
      OnesAtLeast(x / 2, n - 1);
      HalfOnes(x, Pow2(n - 1));
    }
  }

  lemma HalfOnes(x: nat, p: nat)
    requires p > 0
    ensures x % (2 * p) == 2 * p - 1 <==> x % 2 == 1 && x / 2 % p == p - 1
  {
    var q, r := x / 2 / p, x / 2 % p;
    assert x / 2 == q * p + r;
    assert x == 2 * (q * p + r) + x % 2;
    assert 2 * (q * p + r) == q * (2 * p) + 2 * r;
    DivModUnique(q, 2 * r + x % 2, 2 * p);
  }

  /** A halfword is the little-endian number in two bytes. */
  lemma HalfIsNumber(m: seq<Byte>, p: nat)
    requires p + 2 <= |m|
    ensures ReadHalf(m, p) == Le(m, p, 2)
  {
    assert Le(m, p + 2, 0) == 0;
    assert Le(m, p + 1, 1) == m[p + 1];
  }

  /** A word whose first halfword ends in 11 but not in 11111 is fetched as exactly its two
      halfwords, and a trap if either has no page in memory. */
  lemma FourByteInsn(m: seq<Byte>, r: Regs, addr: nat)
    requires Paged(m) && r.root % PAGE == 0 && HalfAddr(m, r, addr, 0) < |m|
    requires 2 <= TrailingOnes(ReadHalf(m, HalfAddr(m, r, addr, 0))) < 5
    ensures PlainInsn(m, r, addr) ==
            if HalfAddr(m, r, addr, 1) >= |m| then Trap
            else Bits(SignExtended([ReadHalf(m, HalfAddr(m, r, addr, 0)), ReadHalf(m, HalfAddr(m, r, addr, 1))]))
  {
    hide HalfAddr, ReadHalf, SignExtended, TrailingOnes, Length;
    var h0 := ReadHalf(m, HalfAddr(m, r, addr, 0));
    LengthByOnes(h0);
    assert Length(h0) / 2 == 2;
    if HalfAddr(m, r, addr, 1) < |m| {
      assert seq(2, k requires 0 <= k < 2 => ReadHalf(m, HalfAddr(m, r, addr, k))) == [h0, ReadHalf(m, HalfAddr(m, r, addr, 1))];
    }
  }

  /** A halfword ending in fewer ones is an instruction by itself, whatever follows it. */
  lemma TwoByteInsn(m: seq<Byte>, r: Regs, addr: nat)
    requires Paged(m) && r.root % PAGE == 0 && HalfAddr(m, r, addr, 0) < |m|
    requires TrailingOnes(ReadHalf(m, HalfAddr(m, r, addr, 0))) < 2
    ensures PlainInsn(m, r, addr) == Bits(SignExtended([ReadHalf(m, HalfAddr(m, r, addr, 0))]))
  {
    hide HalfAddr, ReadHalf, SignExtended, TrailingOnes, Length;
    var h0 := ReadHalf(m, HalfAddr(m, r, addr, 0));
    LengthByOnes(h0);
    assert Length(h0) / 2 == 1;
    assert seq(1, k requires 0 <= k < 1 => ReadHalf(m, HalfAddr(m, r, addr, k))) == [h0];
  }

  /** A 32-bit instruction inside a page is the sign-extended little-endian word that lies
      in memory where its address translates to. */
  lemma WordInPage(m: seq<Byte>, r: Regs, addr: nat)
    requires Paged(m) && |m| < WORD && r.root % PAGE == 0 && addr < WORD && addr % 2 == 0 && addr % PAGE < PAGE - 2
    requires var p := Translate(m, r, Fetch, addr); p < |m| && 2 <= TrailingOnes(ReadHalf(m, p)) < 5
    ensures var p := Translate(m, r, Fetch, addr);
            p + 4 <= |m| && var w := Le(m, p, 4);
            PlainInsn(m, r, addr) == Bits(if w < 0x8000_0000 then w else w + WORD - 0x1_0000_0000)
  {
    hide Translate, PlainInsn, TrailingOnes, SignExtended, Le, ReadHalf;
    var p := Translate(m, r, Fetch, addr);
    assert HalfAddr(m, r, addr, 0) == p;
    FourInPage(m, r, addr);
    FourByteInsn(m, r, addr);
    NextHalf(m, r, addr);
    HalfIsNumber(m, p);
    HalfIsNumber(m, p + 2);
    WordIsHalves(m, p);
    PairSigned(ReadHalf(m, p), ReadHalf(m, p + 2));
  }

  lemma FourInPage(m: seq<Byte>, r: Regs, addr: nat)
    requires Paged(m) && |m| < WORD && r.root % PAGE == 0 && addr % 2 == 0 && addr % PAGE < PAGE - 2
    requires Translate(m, r, Fetch, addr) < |m|
    ensures Translate(m, r, Fetch, addr) + 4 <= |m|
  {
    hide Translate, PageFor;
    TranslateByPage(m, r, Fetch, addr);
    var p := PageFor(m, r, Fetch, addr / PAGE);
    if p.Page? {
      PageInside(p.base, addr % PAGE, |m|);
      EvenRoom(addr);
    }
  }

  lemma EvenRoom(addr: nat)
    requires addr % 2 == 0 && addr % PAGE < PAGE - 2
    ensures addr % PAGE + 4 <= PAGE
  {
    assert addr == addr / PAGE * PAGE + addr % PAGE;
  }

  lemma WordIsHalves(m: seq<Byte>, p: nat)
    requires p + 4 <= |m|
    ensures Le(m, p, 4) == Le(m, p, 2) + 0x1_0000 * Le(m, p + 2, 2)
  {
    assert Le(m, p + 1, 3) == m[p + 1] + 256 * Le(m, p + 2, 2);
    assert Le(m, p + 1, 1) == m[p + 1] by { assert Le(m, p + 2, 0) == 0; }
  }

  lemma PairSigned(h0: nat, h1: nat)
    requires h0 < 0x1_0000 && h1 < 0x1_0000
    ensures var w := h0 + 0x1_0000 * h1; SignExtended([h0, h1]) == if w < 0x8000_0000 then w else w + WORD - 0x1_0000_0000
  {
    hide Pow2;
    var h := [h0, h1];
    assert h[0] == h0 && h[1] == h1;
    PowersOf16();
    HalvesTwo(h0, h1);
    hide Halves;
    Wrapped(h0 + 0x1_0000 * h1, 0x1_0000_0000);
  }
}
