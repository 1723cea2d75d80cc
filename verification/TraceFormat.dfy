/** What the codes, the numbers and the bytes of a trace record stand for. */
module TraceFormat {
  import opened Powers
  import opened TraceRecord

  // ------------------------------------------------------------- codes and numbers

  /** A load's code is five bits: bit 4 locks the line, bits 1 to 3 are the logarithm of
      the width, and bit 0 asks for sign extension, for widths below a word. */
  predicate LoadCode(code: nat) {
    code < 0x20 && code % 16 / 2 <= 6 && (code % 2 == 1 ==> code % 16 / 2 <= 2)
  }

  /** A store's code is even: bit 7 unlocks the line and bits 1 to 3 are as for a load;
      0xFF unlocks without storing. */
  predicate StoreCode(code: nat) {
    code == 0xFF || (code % 2 == 0 && code < 0x100 && code % 128 / 2 <= 6)
  }

  /** The codes there are, and where the loads that lock and the stores that unlock are
      numbered from. */
  lemma CodesExactly(code: nat)
    ensures LoadCode(code) <==> KindOf(LoadNum(code)) == Load
    ensures StoreCode(code) <==> KindOf(StoreNum(code)) == Store
    ensures LoadCode(code) ==> (code < 0x10 <==> LoadNum(code) <= 20) && (code >= 0x10 <==> LoadNum(code) >= 21)
    ensures StoreCode(code) ==> (code < 0x80 <==> StoreNum(code) <= 60) && (code >= 0x80 <==> StoreNum(code) >= 61)
  {
    if StoreCode(code) && code != 0xFF {
      assert code == 2 * (code / 2);
    }
  }

  /** Every number is some code's, within its own kind. */
  lemma NumbersExactly(n: nat)
    ensures KindOf(n) == Load <==> n != 0 && exists code: nat :: LoadCode(code) && LoadNum(code) == n
    ensures KindOf(n) == Store <==> n != 0 && exists code: nat :: StoreCode(code) && StoreNum(code) == n
  {
    NumOfCode(n);
    if KindOf(n) == Load {
      CodesExactly(CodeOf(n));
    } else if KindOf(n) == Store {
      CodesExactly(CodeOf(n));
    }
    forall code: nat | LoadCode(code) ensures KindOf(LoadNum(code)) == Load { CodesExactly(code); }
    forall code: nat | StoreCode(code) ensures KindOf(StoreNum(code)) == Store { CodesExactly(code); }
  }

  /** Numbers are given in the order of the codes. */
  lemma LoadsInOrder(a: nat, b: nat)
    requires LoadCode(a) && LoadCode(b)
    ensures a < b <==> LoadNum(a) < LoadNum(b)
  {
    LoadNumIs(a);
    LoadNumIs(b);
  }

  /** 0xFF is numbered first of the unlocking stores. */
  lemma StoresInOrder(a: nat, b: nat)
    requires StoreCode(a) && StoreCode(b)
    ensures a != 0xFF && b != 0xFF ==> (a < b <==> StoreNum(a) < StoreNum(b))
    ensures a == 0xFF && b != 0xFF ==> (b < 0x80 <==> StoreNum(b) < StoreNum(a))
  {
    StoreNumIs(a);
    StoreNumIs(b);
  }

  lemma LoadNumIs(a: nat)
    requires LoadCode(a)
    ensures LoadNum(a) == (if a < 0x10 then 1 else 21) + if a % 16 <= 6 then a % 16 else a % 16 / 2 + 3
  {
    assert a == 16 * (a / 16) + a % 16;
    assert a % 16 > 6 ==> a % 2 == 0;
  }

  lemma StoreNumIs(a: nat)
    requires StoreCode(a)
    ensures StoreNum(a) == if a == 0xFF then 61 else if a < 0x80 then 41 + a / 2 else a / 2 - 2
  {
  }

  // ------------------------------------------------------------------------- bytes

  lemma {:induction false} Pow256Is(n: nat)
    ensures Pow256(n) == Pow2(8 * n)
  {
    if n > 0 {
      Pow256Is(n - 1);
      Pow2Add(8, 8 * (n - 1));
      assert Pow2(8) == 256;
    }
  }

  /** The bytes of a number's low part are its low bytes. */
  lemma {:induction false} LeOfLow(v: nat, n: nat)
    ensures LeBytes(v % Pow256(n), n) == LeBytes(v, n)
    decreases n
  {
    if n > 0 {
      var p := Pow256(n - 1);
      ModSplit(v, p);
      var w := v % Pow256(n);
      DivModUnique(v / 256 % p, v % 256, 256);
      assert w % 256 == v % 256 && w / 256 == v / 256 % p;
      LeOfLow(v / 256, n - 1);
    }
  }

  /** Twelve bits over two bytes, the second holding the lower ones. */
  function Twelve(high: nat, low: nat, base: nat): nat { high * base + low }

  /** The twenty bytes before the payload: the number, twelve bits each of process and
      delay over three bytes, and two words, the low bit of the second telling whether
      a load's data follows. */
  lemma HeaderLayout(op: Op)
    requires Consistent(op) && op.opNum != 0
    ensures var h := Header(op);
      && h[0] == op.opNum
      && Twelve(h[1], h[2] / 16, 16) == op.pid % 4096
      && Twelve(h[2] % 16, h[3], 256) == op.delay % 4096
      && LeValue(h[4..12]) == op.pc
      && LeValue(h[12..]) == op.addr + if op.opType == OPTYPE_LOAD && op.ldData then 1 else 0
  {
    hide LeBytes, LeValue, CodeOf, Width, Header, AddrWord, Pid1, PidDelay, Twelve;
    HeaderParts(op);
    WordBack(op.pc);
    AddrBack(op);
    WordBack(AddrWord(op));
    PidDigits(op);
    AddrIs(op);
  }

  lemma AddrIs(op: Op)
    requires op.addr % 8 == 0
    ensures AddrWord(op) == op.addr + if op.opType == OPTYPE_LOAD && op.ldData then 1 else 0
  {
  }

  lemma PidDigits(op: Op)
    ensures Twelve(Pid1(op), PidDelay(op) / 16, 16) == op.pid % 4096
    ensures Twelve(PidDelay(op) % 16, op.delay % 256, 256) == op.delay % 4096
  {
    var p, d := op.pid, op.delay;
    var a, b := p % 16, d % 4096 / 256;
    DivModUnique(a, b, 16);
    DivModUnique(256 * (p / 4096) + p % 4096 / 16, p % 4096 % 16, 16);
    DivModUnique(16 * (d / 4096) + d % 4096 / 256, d % 4096 % 256, 256);
  }

  /** A live-cache record is the number 0 and the line's address. */
  lemma LineLayout(op: Op)
    requires Writable(op) && op.opNum == 0
    ensures |Encode(op)| == 9 && Encode(op)[0] == 0 && LeValue(Encode(op)[1..]) == op.addr
  {
    hide LeBytes, LeValue, CodeOf, Width;
    AddrBack(op);
    WordBack(op.addr);
    assert Encode(op)[1..] == LeBytes(Aligned(op.addr), 8);
  }

  /** The payload is the low bytes of the value's first word, lowest first: as many as the
      code says for a store, and for a load that needs its data. */
  lemma PayloadLayout(op: Op)
    requires Writable(op) && op.opNum != 0
    ensures var n := |Encode(op)| - 20;
      && n == (if op.opCode == 0xFF || (op.opType == OPTYPE_LOAD && !op.ldData) then 0 else Pow2(op.opCode % 16 / 2))
      && forall i | 0 <= i < n :: Encode(op)[20 + i] == op.val[0] / Pow2(8 * i) % 256
  {
    hide LeBytes, Header, Pow256, Pow2;
    var n := op.dataSize;
    SizeByCode(op);
    LeOfLow(op.val[0], n);
    NoBytes(op.val[0]);
    assert Encode(op)[20..] == LeBytes(Value(op), n) == LeBytes(op.val[0], n);
    forall i | 0 <= i < n ensures Encode(op)[20 + i] == op.val[0] / Pow2(8 * i) % 256 {
      assert Encode(op)[20 + i] == Encode(op)[20..][i];
      LeAt(op.val[0], n, i);
      Pow256Is(i);
    }
  }

  lemma NoBytes(v: nat)
    ensures LeBytes(0, 0) == LeBytes(v, 0)
  {
  }

  lemma SizeByCode(op: Op)
    requires Writable(op) && op.opNum != 0
    ensures op.dataSize == if op.opCode == 0xFF || (op.opType == OPTYPE_LOAD && !op.ldData) then 0 else Pow2(op.opCode % 16 / 2)
  {
    hide Width, Pow2;
    WidthByCode(op.opNum);
  }
}
