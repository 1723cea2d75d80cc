/** softfloat_remStepMBy32: one remainder reduction step, (R << count) - B * q, on
    little-endian arrays of 32-bit words. */
module RemStep {
  import opened Powers
  import opened Bitwise

  const W: int := 0x1_0000_0000
  type Word = x: int | 0 <= x < W

  // --------------------------------------------------------- multiword numbers

  ghost function Base(n: nat): (b: nat)
    ensures b >= 1
  {
    if n == 0 then 1 else W * Base(n - 1)
  }

  /** The number a little-endian word sequence stands for. */
  ghost function Num(s: seq<Word>): nat {
    if |s| == 0 then 0 else Num(s[..|s| - 1]) + s[|s| - 1] * Base(|s| - 1)
  }

  lemma {:induction false} NumBound(s: seq<Word>)
    ensures Num(s) < Base(|s|)
  {
    if |s| > 0 {
      NumBound(s[..|s| - 1]);
      var B := Base(|s| - 1);
      MulBound(W - s[|s| - 1], B);
      assert (W - s[|s| - 1]) * B == W * B - s[|s| - 1] * B;
    }
  }

  /** Appending the word x at unit U. */
  ghost predicate Appended(before: int, x: int, U: int, after: int) {
    after == before + x * U
  }

  lemma NumSnoc(s: seq<Word>, x: Word, t: seq<Word>)
    requires t == s + [x]
    ensures Appended(Num(s), x, Base(|s|), Num(t))
  {
    assert t[..|s|] == s;
  }

  // ------------------------------------------------------------- the reduction

  /** The loop's state after i words: what it stored, the last word of R it read, the
      high half of the running product, and the borrow. */
  datatype State = State(z: seq<Word>, prev: Word, carry: Word, borrow: bool)

  /** wordRem >> (negCount & 31), the bits of the word below, and wordRem << count. */
  function SpillOf(word: Word, count: nat): (r: Word)
    requires count <= 31
  {
    DivBound(word, Pow2((32 - count) % 32), W);
    word / Pow2((32 - count) % 32)
  }

  function ShiftLeft(word: Word, count: nat): Word { word * Pow2(count) % W }

  function Or32(x: Word, y: Word): Word {
    Pow2Values();
    OrBound(x, y, 32);
    Or(x, y)
  }

  /** Truncation to 32 bits, the high half of a 64-bit product, and subtraction in 32
      bits with the borrow it produces. */
  function MulAdd(b: Word, q: Word, carry: int): int { b * q + carry }
  function Low(x: int): Word { x % W }
  function High(x: int): int { x / W }
  function Minus(x: Word, y: Word, borrow: bool): Word { (x - y - (if borrow then 1 else 0)) % W }
  predicate Borrows(x: Word, y: Word, borrow: bool) { if borrow then x <= y else x < y }

  lemma ProductFits(b: Word, q: Word, carry: Word)
    ensures var p := b * q + carry; 0 <= High(p) < W && p == High(p) * W + Low(p)
  {
    MulMonotone(b, q, W - 1);
    MulMonotone(W - 1, b, W - 1);
    MulMonotone(b, 0, q);
  }

  function Step(s: State, word: Word, b: Word, count: nat, q: Word): State
    requires count <= 31
  {
    ProductFits(b, q, s.carry);
    var shifted := Or32(SpillOf(s.prev, count), ShiftLeft(word, count));
    var prod := b * q + s.carry;
    var low := Low(prod);
    State(s.z + [Minus(shifted, low, s.borrow)], word, High(prod), Borrows(shifted, low, s.borrow))
  }

  function Run(rem: seq<Word>, b: seq<Word>, count: nat, q: Word, i: nat): (s: State)
    requires i <= |rem| && i <= |b| && count <= 31
    ensures |s.z| == i
    ensures i > 0 ==> s.prev == rem[i - 1]
  {
    if i == 0 then State([], 0, 0, false)
    else Step(Run(rem, b, count, q, i - 1), rem[i - 1], b[i - 1], count, q)
  }

  /** What the state still owes beyond the stored words, in units of the next word. */
  ghost function Owed(s: State, count: nat): int
    requires 1 <= count <= 31
  {
    SpillOf(s.prev, count) - s.carry - (if s.borrow then 1 else 0)
  }

  /** A left shift splits a word into a spill and the bits that stay. */
  lemma ShiftSplits(x: Word, count: nat)
    requires 1 <= count <= 31
    ensures x * Pow2(count) == SpillOf(x, count) * W + ShiftLeft(x, count)
    ensures ShiftLeft(x, count) % Pow2(count) == 0
    ensures SpillOf(x, count) < Pow2(count)
  {
    hide Pow2;
    assert (32 - count) % 32 == 32 - count;
    Pow2Add(count, 32 - count);
    Pow2Values();
    SplitProduct(x, Pow2(count), Pow2(32 - count));
  }

  lemma SplitProduct(x: Word, C: int, R: int)
    requires C > 0 && R > 0 && C * R == W
    ensures x * C == x / R * W + x * C % W && x * C % W % C == 0 && 0 <= x / R < C
  {
    var h, l := x / R, x % R;
    assert x == h * R + l;
    assert x * C == h * W + l * C by {
      assert (h * R + l) * C == h * (C * R) + l * C;
    }
    assert 0 <= l * C < W by {
      MulBound(R - l, C);
      assert (R - l) * C == W - l * C;
      MulMonotone(C, 0, l);
    }
    DivModUnique(h, l * C, W);
    DivModUnique(l, 0, C);
    DivBound(x, R, C);
  }

  lemma OrAdds(spill: Word, left: Word, count: nat)
    requires count <= 31 && spill < Pow2(count) && left % Pow2(count) == 0
    ensures Or32(spill, left) == spill + left
  {
    hide Pow2, Or;
    OrDisjoint(spill, left, count);
  }

  /** Subtracting with borrow in 32 bits. */
  lemma Subtract(x: Word, y: Word, borrow: bool)
    ensures x - y - (if borrow then 1 else 0) == Minus(x, y, borrow) - (if Borrows(x, y, borrow) then W else 0)
  {
  }

  /** R * C - B * q, stored up to what is still owed at unit U. */
  ghost predicate Balanced(R: int, B: int, C: int, q: int, Z: int, U: int, owed: int) {
    R * C - B * q == Z + U * owed
  }

  /** Each step stores one word and passes on spill, carry and borrow. */
  lemma StepBalance(s: State, word: Word, b: Word, count: nat, q: Word)
    requires 1 <= count <= 31
    ensures var t := Step(s, word, b, count, q);
            Balanced(word, b, Pow2(count), q, t.z[|s.z|] - Owed(s, count), W, Owed(t, count))
  {
    hide Pow2, Or, Or32, SpillOf, ShiftLeft;
    ShiftSplits(s.prev, count);
    ShiftSplits(word, count);
    OrAdds(SpillOf(s.prev, count), ShiftLeft(word, count), count);
    ProductFits(b, q, s.carry);
    Subtract(Or32(SpillOf(s.prev, count), ShiftLeft(word, count)), Low(b * q + s.carry), s.borrow);
  }

  /** The invariant of the loop. */
  lemma {:induction false} RunBalance(rem: seq<Word>, b: seq<Word>, count: nat, q: Word, i: nat)
    requires i <= |rem| && i <= |b| && 1 <= count <= 31
    ensures var s := Run(rem, b, count, q, i);
            Balanced(Num(rem[..i]), Num(b[..i]), Pow2(count), q, Num(s.z), Base(i), Owed(s, count))
  {
    hide Pow2, Owed, SpillOf;
    if i == 0 {
      ZeroOwed(count);
    } else {
      var s := Run(rem, b, count, q, i - 1);
      var t := Run(rem, b, count, q, i);
      hide Balanced, Base, Appended, Step, Num, Run;
      RunAppends(rem, b, count, q, i);
      RunBalance(rem, b, count, q, i - 1);
      BaseStep(i - 1);
      StepBalance(s, rem[i - 1], b[i - 1], count, q);
      assert rem[..i] == rem[..i - 1] + [rem[i - 1]] && b[..i] == b[..i - 1] + [b[i - 1]];
      NumSnoc(rem[..i - 1], rem[i - 1], rem[..i]);
      NumSnoc(b[..i - 1], b[i - 1], b[..i]);
      NumSnoc(s.z, t.z[i - 1], t.z);
      Collect(Num(rem[..i - 1]), rem[i - 1], Num(rem[..i]), Num(b[..i - 1]), b[i - 1], Num(b[..i]), Pow2(count), q,
              Base(i - 1), Base(i), Num(s.z), Owed(s, count), Num(t.z), t.z[i - 1], Owed(t, count));
    }
  }

  lemma RunAppends(rem: seq<Word>, b: seq<Word>, count: nat, q: Word, i: nat)
    requires 0 < i <= |rem| && i <= |b| && count <= 31
    ensures var s, t := Run(rem, b, count, q, i - 1), Run(rem, b, count, q, i);
            |t.z| == i && t.z == s.z + [t.z[i - 1]] && t == Step(s, rem[i - 1], b[i - 1], count, q)
  {
    hide Or32, SpillOf, ShiftLeft, Low, High, Minus, Borrows;
  }

  lemma BaseStep(n: nat)
    ensures Base(n + 1) == W * Base(n)
  {
  }

  lemma ZeroOwed(count: nat)
    requires 1 <= count <= 31
    ensures Owed(State([], 0, 0, false), count) == 0
  {
    DivModUnique(0, 0, Pow2((32 - count) % 32));
  }

  lemma Collect(R: int, r: int, R': int, B: int, b: int, B': int, C: int, q: int, U: int, U': int,
                Z: int, o: int, Z': int, z: int, o': int)
    requires Balanced(R, B, C, q, Z, U, o) && Balanced(r, b, C, q, z - o, W, o')
    requires Appended(R, r, U, R') && Appended(B, b, U, B') && Appended(Z, z, U, Z') && U' == W * U
    ensures Balanced(R', B', C, q, Z', U', o')
  {
    calc {
      R' * C - B' * q;
      R * C - B * q + U * (r * C - b * q);
      Z + U * (o + r * C - b * q);
      Z + U * (z + W * o');
    }
  }

  /** The reduction step is exact modulo 2^(32 n). */
  lemma RunIsReduction(rem: seq<Word>, b: seq<Word>, count: nat, q: Word)
    requires |rem| == |b| && 1 <= count <= 31
    ensures Num(Run(rem, b, count, q, |rem|).z)
         == (Num(rem) * Pow2(count) - Num(b) * q) % Base(|rem|)
  {
    var n := |rem|;
    var s := Run(rem, b, count, q, n);
    RunBalance(rem, b, count, q, n);
    assert rem[..n] == rem && b[..n] == b;
    NumBound(s.z);
    assert Base(n) * Owed(s, count) == Owed(s, count) * Base(n);
    DivModUnique(Owed(s, count), Num(s.z), Base(n));
  }

  // ---------------------------------------- exactly when the result is right

  ghost predicate Correct(rem: seq<Word>, b: seq<Word>, count: nat, q: Word)
    requires |rem| == |b| && count <= 31
  {
    Num(Run(rem, b, count, q, |rem|).z) == (Num(rem) * Pow2(count) - Num(b) * q) % Base(|rem|)
  }

  /** R == 1 and B == 0: with a zero count the spill is the whole lower word, which the
      loop ors into the next one. */
  lemma ZeroCountFails(n: nat) returns (rem: seq<Word>, b: seq<Word>)
    requires n >= 2
    ensures |rem| == |b| == n && !Correct(rem, b, 0, 0)
  {
    var zeros: seq<Word> := seq(n - 1, i => 0);
    rem, b := [1] + zeros, [0] + zeros;
    hide *;
    SpillsOver(rem, b);
    RunGrows(rem, b, 0, 0, 2, n);
    var z := Run(rem, b, 0, 0, n).z;
    assert z[1] == z[..2][1];
    NumAtLeast(z, 1);
    NumOfOne(zeros);
    NumOfZeros(b);
    NotOne(rem, b);
  }

  lemma NotOne(rem: seq<Word>, b: seq<Word>)
    requires |rem| == |b| >= 2 && Num(rem) == 1 && Num(b) == 0
    requires Num(Run(rem, b, 0, 0, |rem|).z) >= Base(1)
    ensures !Correct(rem, b, 0, 0)
  {
    hide Run, Num, Base, Pow2;
    var n := |rem|;
    ZeroCountOps(0);
    BaseStep(n - 1);
    DivModUnique(0, 1, Base(n));
    assert Num(rem) * Pow2(0) - Num(b) * 0 == 1;
  }

  lemma SpillsOver(rem: seq<Word>, b: seq<Word>)
    requires |rem| >= 2 && |b| >= 2 && rem[0] == 1 && rem[1] == 0 && b[0] == 0 && b[1] == 0
    ensures Run(rem, b, 0, 0, 2).z == [1, 1]
  {
    FirstStep(rem, b, 0, 0);
    FirstShift(1, 0);
    ZeroCountOps(0);
    ZeroCountOps(1);
    assert Or32(1, 0) == 1;
    hide Or32, ShiftLeft, SpillOf, Pow2, Run;
    RunStep(rem, b, 0, 0, 1, State([1], 1, 0, false), 1, 0);
  }

  lemma {:induction false} RunGrows(rem: seq<Word>, b: seq<Word>, count: nat, q: Word, i: nat, j: nat)
    requires i <= j <= |rem| && j <= |b| && count <= 31
    ensures Run(rem, b, count, q, j).z[..i] == Run(rem, b, count, q, i).z
  {
    if i < j {
      RunGrows(rem, b, count, q, i, j - 1);
      assert Run(rem, b, count, q, j).z[..j - 1] == Run(rem, b, count, q, j - 1).z;
    }
  }

  lemma {:induction false} NumAtLeast(s: seq<Word>, k: nat)
    requires k < |s|
    ensures Num(s) >= s[k] * Base(k)
  {
    hide Base;
    var t := s[..|s| - 1];
    MulMonotone(Base(|t|), 0, s[|t|]);
    assert Base(|t|) * s[|t|] == s[|t|] * Base(|t|);
    if k < |t| {
      NumAtLeast(t, k);
    }
  }

  lemma {:induction false} NumOfZeros(s: seq<Word>)
    requires forall i | 0 <= i < |s| :: s[i] == 0
    ensures Num(s) == 0
  {
    if |s| > 0 { NumOfZeros(s[..|s| - 1]); }
  }

  lemma {:induction false} NumOfOne(zeros: seq<Word>)
    requires forall i | 0 <= i < |zeros| :: zeros[i] == 0
    ensures Num([1] + zeros) == 1
  {
    var s := [1] + zeros;
    if |zeros| > 0 {
      NumOfOne(zeros[..|zeros| - 1]);
      assert s[..|s| - 1] == [1] + zeros[..|zeros| - 1];
    } else {
      assert s[..0] == [];
      assert Num(s) == 0 + 1 * Base(0);
    }
  }

  /** A zero count is the one count in 0..31 for which the loop can go wrong, and it
      does as soon as there are two words. */
  lemma ReductionExactly(n: nat, count: nat)
    requires n >= 1 && count <= 31
    ensures (forall rem: seq<Word>, b: seq<Word>, q: Word | |rem| == |b| == n :: Correct(rem, b, count, q))
            <==> count >= 1 || n == 1
  {
    if count >= 1 {
      forall rem: seq<Word>, b: seq<Word>, q: Word | |rem| == |b| == n ensures Correct(rem, b, count, q) {
        RunIsReduction(rem, b, count, q);
      }
    } else if n == 1 {
      forall rem: seq<Word>, b: seq<Word>, q: Word | |rem| == |b| == n ensures Correct(rem, b, count, q) {
        OneWord(rem, b, q);
      }
    } else {
      var rem, b := ZeroCountFails(n);
      assert !Correct(rem, b, 0, 0);
    }
  }

  lemma OneWord(rem: seq<Word>, b: seq<Word>, q: Word)
    requires |rem| == |b| == 1
    ensures Correct(rem, b, 0, q)
  {
    FirstStep(rem, b, 0, q);
    NumSingle(rem);
    NumSingle(b);
    NumSingle(Run(rem, b, 0, q, 1).z);
    FirstShift(rem[0], 0);
    ModMinus(rem[0], b[0] * q);
    ZeroCountOps(rem[0]);
    hide Run, Num, Or32, ShiftLeft, SpillOf, Base, Pow2, Low;
  }

  lemma ZeroCountOps(x: Word)
    ensures ShiftLeft(x, 0) == x && SpillOf(x, 0) == x && Pow2(0) == 1 && Base(0) == 1 && Base(1) == W
  {
  }

  lemma NumSingle(s: seq<Word>)
    requires |s| == 1
    ensures Num(s) == s[0]
  {
    assert s[..0] == [] && Base(0) == 1;
  }

  lemma FirstStep(rem: seq<Word>, b: seq<Word>, count: nat, q: Word)
    requires |rem| >= 1 && |b| >= 1 && count <= 31
    ensures var sh := Or32(SpillOf(0, count), ShiftLeft(rem[0], count));
            && 0 <= High(MulAdd(b[0], q, 0)) < W
            && Run(rem, b, count, q, 1) ==
               State([Minus(sh, Low(MulAdd(b[0], q, 0)), false)], rem[0], High(MulAdd(b[0], q, 0)), Borrows(sh, Low(MulAdd(b[0], q, 0)), false))
  {
    hide Or32, SpillOf, ShiftLeft;
    assert Run(rem, b, count, q, 0) == State([], 0, 0, false);
    ProductFits(b[0], q, 0);
  }

  lemma ModMinus(r: int, d: int)
    ensures 0 <= r < W ==> (r - d) % W == Minus(r, Low(d), false)
  {
    var m := (r - d % W) % W;
    DivModUnique((r - d % W) / W - d / W, m, W);
  }

  // ------------------------------------------------------------- the loop

  /** softfloat_remStepMBy32.  Any of the arrays may alias. */
  method RemStepMBy32(n: nat, rem: array<Word>, count: nat, b: array<Word>, q: Word, z: array<Word>)
    requires 1 <= n <= rem.Length && n <= b.Length && n <= z.Length && count <= 31
    modifies z
    ensures z[..n] == Run(old(rem[..n]), old(b[..n]), count, q, n).z
    ensures forall i | n <= i < z.Length :: z[i] == old(z[i])
    ensures count >= 1 || n == 1 ==>
              Num(z[..n]) == (Num(old(rem[..n])) * Pow2(count) - Num(old(b[..n])) * q) % Base(n)
  {
    ghost var R, B := rem[..n], b[..n];
    if count >= 1 || n == 1 { ReductionHolds(R, B, count, q); }
    hide *;
    ghost var Z := Reduce(n, rem, count, b, q, z, R, B);
    assert z[..n] == Z;
  }

  /** The loop over words.  R and B are the words of the operands on entry: every index
      is read before it is written, so overwriting an aliased operand does no harm. */
  method Reduce(n: nat, rem: array<Word>, count: nat, b: array<Word>, q: Word, z: array<Word>,
                ghost R: seq<Word>, ghost B: seq<Word>) returns (ghost Z: seq<Word>)
    requires 1 <= n <= rem.Length && n <= b.Length && n <= z.Length && count <= 31
    requires |R| == |B| == n && forall i | 0 <= i < n :: rem[i] == R[i] && b[i] == B[i]
    modifies z
    ensures Z == Run(R, B, count, q, n).z
    ensures |Z| == n && forall i | 0 <= i < n :: z[i] == Z[i]
    ensures forall i | n <= i < z.Length :: z[i] == old(z[i])
  {
    hide Pow2, Or, Base, Num, Or32, ShiftLeft, SpillOf, Step, Run, Low, High, Minus, Borrows, MulAdd;
    var index, lastIndex := 0, n - 1;
    FirstStep(R, B, count, q);
    FirstShift(rem[index], count);
    var dwordProd := MulAdd(b[index], q, 0);
    var wordRem := rem[index];
    var wordShiftedRem := ShiftLeft(wordRem, count);
    var wordProd := Low(dwordProd);
    z[index] := Minus(wordShiftedRem, wordProd, false);
    ghost var s := Run(R, B, count, q, 1);
    if index != lastIndex {
      var borrow := Borrows(wordShiftedRem, wordProd, false);
      while true
        invariant 0 <= index < n - 1
        invariant forall i | index < i < n :: rem[i] == R[i] && b[i] == B[i]
        invariant forall i | n <= i < z.Length :: z[i] == old(z[i])
        invariant s == Run(R, B, count, q, index + 1) && |s.z| == index + 1
        invariant forall i | 0 <= i <= index :: z[i] == s.z[i]
        invariant s.prev == wordRem && s.carry == High(dwordProd) && s.borrow == borrow
        decreases n - index
      {
        wordShiftedRem := SpillOf(wordRem, count);
        index := index + 1;
        dwordProd := MulAdd(b[index], q, High(dwordProd));
        wordRem := rem[index];
        wordShiftedRem := Or32(wordShiftedRem, ShiftLeft(wordRem, count));
        wordProd := Low(dwordProd);
        RunStep(R, B, count, q, index, s, wordShiftedRem, dwordProd);
        s := Run(R, B, count, q, index + 1);
        z[index] := Minus(wordShiftedRem, wordProd, borrow);
        if index == lastIndex {
          break;
        }
        borrow := Borrows(wordShiftedRem, wordProd, borrow);
      }
    }
    Z := s.z;
  }

  lemma RunStep(rem: seq<Word>, b: seq<Word>, count: nat, q: Word, i: nat, s: State, shifted: Word, prod: int)
    requires i < |rem| && i < |b| && count <= 31 && s == Run(rem, b, count, q, i)
    requires shifted == Or32(SpillOf(s.prev, count), ShiftLeft(rem[i], count)) && prod == MulAdd(b[i], q, s.carry)
    ensures 0 <= High(prod) < W
    ensures var t := Run(rem, b, count, q, i + 1);
            && t.prev == rem[i] && t.carry == High(prod) && t.borrow == Borrows(shifted, Low(prod), s.borrow)
            && |t.z| == i + 1 && t.z[i] == Minus(shifted, Low(prod), s.borrow)
            && forall k | 0 <= k < i :: t.z[k] == s.z[k]
  {
    hide SpillOf, Or32, ShiftLeft, High, Low, Minus, Borrows;
    ProductFits(b[i], q, s.carry);
  }

  lemma ReductionHolds(rem: seq<Word>, b: seq<Word>, count: nat, q: Word)
    requires |rem| == |b| && count <= 31 && (count >= 1 || |rem| == 1)
    ensures Num(Run(rem, b, count, q, |rem|).z) == (Num(rem) * Pow2(count) - Num(b) * q) % Base(|rem|)
  {
    hide Run, Num, Pow2, Base;
    if count >= 1 { RunIsReduction(rem, b, count, q); } else { OneWord(rem, b, q); }
  }

  lemma FirstShift(word: Word, count: nat)
    requires count <= 31
    ensures Or32(SpillOf(0, count), ShiftLeft(word, count)) == ShiftLeft(word, count)
  {
    DivModUnique(0, 0, Pow2((32 - count) % 32));
  }
}
