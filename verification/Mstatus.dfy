/** The mstatus register: its fields, the writes processor_t makes to it, and the
    privilege stack it holds. */
module Mstatus {

  type Word = bv64

  function Ie(s: Word): Word { s & 0x1 }
  function SetIe(s: Word, v: Word): Word { (s & !0x1) | (v & 0x1) }
  function Prv(s: Word): Word { (s & 0x6) >> 1 }
  function SetPrv(s: Word, v: Word): Word { (s & !0x6) | ((v << 1) & 0x6) }
  function Ie1(s: Word): Word { (s & 0x8) >> 3 }
  function SetIe1(s: Word, v: Word): Word { (s & !0x8) | ((v << 3) & 0x8) }
  function Prv1(s: Word): Word { (s & 0x30) >> 4 }
  function SetPrv1(s: Word, v: Word): Word { (s & !0x30) | ((v << 4) & 0x30) }
  function Ie2(s: Word): Word { (s & 0x40) >> 6 }
  function SetIe2(s: Word, v: Word): Word { (s & !0x40) | ((v << 6) & 0x40) }
  function Prv2(s: Word): Word { (s & 0x180) >> 7 }
  function SetPrv2(s: Word, v: Word): Word { (s & !0x180) | ((v << 7) & 0x180) }
  function Fs(s: Word): Word { (s & 0x3000) >> 12 }
  function SetFs(s: Word, v: Word): Word { (s & !0x3000) | ((v << 12) & 0x3000) }
  function Xs(s: Word): Word { (s & 0xC000) >> 14 }
  function SetXs(s: Word, v: Word): Word { (s & !0xC000) | ((v << 14) & 0xC000) }
  function Mprv(s: Word): Word { (s & 0x10000) >> 16 }
  function SetMprv(s: Word, v: Word): Word { (s & !0x10000) | ((v << 16) & 0x10000) }
  function Vm(s: Word): Word { (s & 0x3E0000) >> 17 }
  function Sd32(s: Word): Word { (s & 0x80000000) >> 31 }
  function SetSd32(s: Word, v: Word): Word { (s & !0x80000000) | ((v << 31) & 0x80000000) }
  function Sd64(s: Word): Word { (s & 0x8000000000000000) >> 63 }
  function SetSd64(s: Word, v: Word): Word { (s & !0x8000000000000000) | ((v << 63) & 0x8000000000000000) }

  const USER: Word := 0
  const SUPERVISOR: Word := 1
  const MACHINE: Word := 3

  predicate ValidPriv(priv: Word) { priv == 0 || priv == 1 || priv == 3 }

  predicate ValidVm(rv64: bool, vm: Word) {
    if rv64 && (vm == 9 || vm == 10) then true
    else if !rv64 && vm == 8 then true
    else vm == 0
  }

  function SetSd(s: Word, v: Word, rv64: bool): Word { if rv64 then SetSd64(s, v) else SetSd32(s, v) }

  predicate Dirty(s: Word) { s & 0x3000 == 0x3000 || s & 0xC000 == 0xC000 }

  // ------------------------------------------------------------------ the writes

  /** The bits a write of val may change. */
  function Writable(val: Word, rv64: bool, ext: bool): Word {
    0x1_3049
    | (if ext then 0xC000 else 0)
    | (if ValidVm(rv64, Vm(val)) then 0x3E_0000 else 0)
    | (if ValidPriv(Prv(val)) then 0x6 else 0)
    | (if ValidPriv(Prv1(val)) then 0x30 else 0)
    | (if ValidPriv(Prv2(val)) then 0x180 else 0)
  }

  function Merged(s: Word, val: Word, mask: Word): Word { (s & !mask) | (val & mask) }

  /** A write of val to CSR_MSTATUS over the old value s. */
  function Write(s: Word, val: Word, rv64: bool, ext: bool): Word {
    var t := Merged(s, val, Writable(val, rv64, ext));
    SetSd(t, if Dirty(t) then 1 else 0, rv64)
  }

  /** Whether that write flushes the TLB. */
  predicate Flushes(s: Word, val: Word) {
    (val ^ s) & 0x3F_0036 != 0
  }

  function AfterReset(): Word { SetPrv2(SetPrv1(SetPrv(0, MACHINE), USER), USER) }

  /** dirty_fp_state and dirty_ext_state, which set SD along with their field. */
  function TouchFp(s: Word, rv64: bool): Word { s | (0x3000 | (if rv64 then 0x8000_0000_0000_0000 else 0x8000_0000)) }

  function TouchExt(s: Word, rv64: bool): Word { s | (0xC000 | (if rv64 then 0x8000_0000_0000_0000 else 0x8000_0000)) }

  /** SSTATUS_PS, the low bit of PRV1. */
  function Ps(s: Word): Word { (s & 0x10) >> 4 }
  function SetPs(s: Word, v: Word): Word { (s & !0x10) | ((v << 4) & 0x10) }

  /** The value a write of val to CSR_SSTATUS passes on to CSR_MSTATUS. */
  function FromSstatus(s: Word, val: Word): Word {
    var s1 := SetIe(s, Ie(val));
    var s2 := SetIe1(s1, Ie1(val));
    var s3 := SetPrv1(s2, Ps(val));
    var s4 := SetFs(s3, Fs(val));
    var s5 := SetXs(s4, Xs(val));
    SetMprv(s5, Mprv(val))
  }

  /** The shared part of what a read of CSR_SSTATUS returns. */
  function SstatusFields(s: Word): Word {
    var s1 := SetIe(0, Ie(s));
    var s2 := SetIe1(s1, Ie1(s));
    var s3 := SetPs(s2, Prv1(s));
    var s4 := SetFs(s3, Fs(s));
    var s5 := SetXs(s4, Xs(s));
    SetMprv(s5, Mprv(s))
  }

  /** A read of CSR_SSTATUS; it looks for SD in bit 63 whatever the width. */
  function ReadSstatus(s: Word, rv64: bool): Word {
    if Sd64(s) != 0 then SetSd(SstatusFields(s), 1, rv64) else SstatusFields(s)
  }

  /** The value push_privilege_stack writes. */
  function PushValue(s: Word): Word {
    var s1 := SetPrv2(s, Prv1(s));
    var s2 := SetIe2(s1, Ie1(s));
    var s3 := SetPrv1(s2, Prv(s));
    var s4 := SetIe1(s3, Ie(s));
    var s5 := SetPrv(s4, MACHINE);
    var s6 := SetMprv(s5, 0);
    SetIe(s6, 0)
  }

  /** The value pop_privilege_stack writes. */
  function PopValue(s: Word): Word {
    var s1 := SetPrv(s, Prv1(s));
    var s2 := SetIe(s1, Ie1(s));
    var s3 := SetPrv1(s2, Prv2(s));
    var s4 := SetIe1(s3, Ie2(s));
    var s5 := SetPrv2(s4, USER);
    SetIe2(s5, 1)
  }

  /** The low 22 bits are the fields side by side, but for the unused ones from 9 to 11. */
  lemma FieldsTile(s: Word)
    ensures s & 0x1FF == Ie(s) | (Prv(s) << 1) | (Ie1(s) << 3) | (Prv1(s) << 4) | (Ie2(s) << 6) | (Prv2(s) << 7)
    ensures s & 0x3F_F000 == (Fs(s) << 12) | (Xs(s) << 14) | (Mprv(s) << 16) | (Vm(s) << 17)
  {
  }

  lemma FieldWidths(s: Word)
    ensures Ie(s) < 2 && Ie1(s) < 2 && Ie2(s) < 2 && Mprv(s) < 2
    ensures Prv(s) < 4 && Prv1(s) < 4 && Prv2(s) < 4
    ensures Fs(s) < 4 && Xs(s) < 4 && Vm(s) < 32
  {
  }

  ghost predicate Legal(s: Word, rv64: bool) {
    && ValidPriv(Prv(s)) && ValidPriv(Prv1(s)) && ValidPriv(Prv2(s))
    && ValidVm(rv64, Vm(s))
    && (if rv64 then Sd64(s) == 1 <==> Dirty(s) else Sd32(s) == 1 <==> Dirty(s))
    && (if rv64 then Sd32(s) == 0 else Sd64(s) == 0)
  }

  lemma SdFrameFlags(t: Word, v: Word, rv64: bool)
    ensures var u := SetSd(t, v, rv64); Ie(u) == Ie(t) && Ie1(u) == Ie1(t) && Ie2(u) == Ie2(t) && Mprv(u) == Mprv(t)
  {
  }

  lemma SdFrameModes(t: Word, v: Word, rv64: bool)
    ensures var u := SetSd(t, v, rv64); Vm(u) == Vm(t) && Prv(u) == Prv(t) && Prv1(u) == Prv1(t) && Prv2(u) == Prv2(t)
  {
  }

  lemma SdFrameDirty(t: Word, v: Word, rv64: bool)
    ensures var u := SetSd(t, v, rv64); Fs(u) == Fs(t) && Xs(u) == Xs(t) && Dirty(u) == Dirty(t)
  {
  }

  lemma SdReads(t: Word, v: Word, rv64: bool)
    requires v <= 1
    ensures var u := SetSd(t, v, rv64);
      if rv64 then Sd64(u) == v && Sd32(u) == Sd32(t) else Sd32(u) == v && Sd64(u) == Sd64(t)
  {
  }

  lemma MergedEnables(s: Word, val: Word, rv64: bool, ext: bool)
    ensures var t := Merged(s, val, Writable(val, rv64, ext));
      Ie(t) == Ie(val) && Ie1(t) == Ie1(val) && Ie2(t) == Ie2(val)
  {
    hide ValidVm, ValidPriv;
  }

  lemma MergedFlags(s: Word, val: Word, rv64: bool, ext: bool)
    ensures var t := Merged(s, val, Writable(val, rv64, ext));
      Mprv(t) == Mprv(val) && Fs(t) == Fs(val) && Xs(t) == Xs(if ext then val else s)
  {
    hide ValidVm, ValidPriv;
  }

  lemma MergedMode(s: Word, val: Word, rv64: bool, ext: bool)
    ensures var t := Merged(s, val, Writable(val, rv64, ext));
      && Vm(t) == Vm(if ValidVm(rv64, Vm(val)) then val else s)
      && Prv(t) == Prv(if ValidPriv(Prv(val)) then val else s)
  {
    hide ValidVm, ValidPriv;
  }

  lemma MergedStack(s: Word, val: Word, rv64: bool, ext: bool)
    ensures var t := Merged(s, val, Writable(val, rv64, ext));
      && Prv1(t) == Prv1(if ValidPriv(Prv1(val)) then val else s)
      && Prv2(t) == Prv2(if ValidPriv(Prv2(val)) then val else s)
  {
    hide ValidVm, ValidPriv;
  }

  lemma Unwritable(val: Word, rv64: bool, ext: bool)
    ensures Writable(val, rv64, ext) & 0x8000_0000 == 0 && Writable(val, rv64, ext) & 0x8000_0000_0000_0000 == 0
  {
    hide ValidVm, ValidPriv;
  }

  lemma SdWritten(t: Word, rv64: bool)
    ensures var u := SetSd(t, if Dirty(t) then 1 else 0, rv64);
      && (if rv64 then Sd64(u) == 1 <==> Dirty(u) else Sd32(u) == 1 <==> Dirty(u))
      && (if rv64 then Sd32(u) == Sd32(t) else Sd64(u) == Sd64(t))
  {
    hide Dirty, SetSd, Sd32, Sd64;
    SdFrameDirty(t, 0, rv64);
    SdFrameDirty(t, 1, rv64);
    SdReads(t, 0, rv64);
    SdReads(t, 1, rv64);
  }

  lemma SdKept(s: Word, val: Word, mask: Word)
    requires mask & 0x8000_0000 == 0 && mask & 0x8000_0000_0000_0000 == 0
    ensures Sd32(Merged(s, val, mask)) == Sd32(s) && Sd64(Merged(s, val, mask)) == Sd64(s)
  {
  }

  lemma WriteSd(s: Word, val: Word, rv64: bool, ext: bool)
    ensures var t := Write(s, val, rv64, ext);
      && (if rv64 then Sd64(t) == 1 <==> Dirty(t) else Sd32(t) == 1 <==> Dirty(t))
      && (if rv64 then Sd32(t) == Sd32(s) else Sd64(t) == Sd64(s))
  {
    hide Writable, SetSd, Sd32, Sd64, Dirty, Merged;
    Unwritable(val, rv64, ext);
    SdWritten(Merged(s, val, Writable(val, rv64, ext)), rv64);
    SdKept(s, val, Writable(val, rv64, ext));
  }

  /** What each field holds after a write: the written value where it is acceptable,
      the old one where it is not; SD says whether FS or XS is dirty. */
  lemma WriteFields(s: Word, val: Word, rv64: bool, ext: bool)
    ensures var t := Write(s, val, rv64, ext);
      && Ie(t) == Ie(val) && Ie1(t) == Ie1(val) && Ie2(t) == Ie2(val) && Mprv(t) == Mprv(val)
      && Fs(t) == Fs(val) && Xs(t) == Xs(if ext then val else s)
      && Vm(t) == Vm(if ValidVm(rv64, Vm(val)) then val else s)
      && Prv(t) == Prv(if ValidPriv(Prv(val)) then val else s)
      && Prv1(t) == Prv1(if ValidPriv(Prv1(val)) then val else s)
      && Prv2(t) == Prv2(if ValidPriv(Prv2(val)) then val else s)
      && (if rv64 then Sd64(t) == 1 <==> Dirty(t) else Sd32(t) == 1 <==> Dirty(t))
      && (if rv64 then Sd32(t) == Sd32(s) else Sd64(t) == Sd64(s))
  {
    hide Writable, Merged, SetSd, Dirty, Ie, Ie1, Ie2, Mprv, Fs, Xs, Vm, Prv, Prv1, Prv2, Sd32, Sd64, ValidVm, ValidPriv;
    var m := Merged(s, val, Writable(val, rv64, ext));
    MergedEnables(s, val, rv64, ext);
    MergedFlags(s, val, rv64, ext);
    MergedMode(s, val, rv64, ext);
    MergedStack(s, val, rv64, ext);
    var sd := if Dirty(m) then 1 else 0;
    SdFrameFlags(m, sd, rv64);
    SdFrameModes(m, sd, rv64);
    SdFrameDirty(m, sd, rv64);
    WriteSd(s, val, rv64, ext);
  }

  lemma WriteLegal(s: Word, val: Word, rv64: bool, ext: bool)
    requires Legal(s, rv64)
    ensures Legal(Write(s, val, rv64, ext), rv64)
  {
    hide Write, Dirty, Prv, Prv1, Prv2, Vm, Sd32, Sd64;
    WriteFields(s, val, rv64, ext);
  }

  lemma ResetLegal(rv64: bool, ext: bool)
    ensures var s := AfterReset(); Legal(s, rv64) && Prv(s) == MACHINE && Vm(s) == 0 && Mprv(s) == 0
    ensures var s := AfterReset(); Prv1(s) == USER && Prv2(s) == USER && Ie(s) == 0 && Ie1(s) == 0 && Ie2(s) == 0 && !Dirty(s)
  {
  }

  /** Using the floating-point unit makes FS dirty, and SD, and leaves every other field. */
  lemma TouchFpFields(s: Word, rv64: bool)
    ensures var t := TouchFp(s, rv64);
      && Fs(t) == 3 && Xs(t) == Xs(s)
      && (if rv64 then Sd64(t) == 1 && Sd32(t) == Sd32(s) else Sd32(t) == 1 && Sd64(t) == Sd64(s))
    ensures KeptModes(s, TouchFp(s, rv64)) && KeptEnables(s, TouchFp(s, rv64))
  {
  }

  /** Using the extension does the same to XS. */
  lemma TouchExtFields(s: Word, rv64: bool)
    ensures var t := TouchExt(s, rv64);
      && Xs(t) == 3 && Fs(t) == Fs(s)
      && (if rv64 then Sd64(t) == 1 && Sd32(t) == Sd32(s) else Sd32(t) == 1 && Sd64(t) == Sd64(s))
    ensures KeptModes(s, TouchExt(s, rv64)) && KeptEnables(s, TouchExt(s, rv64))
  {
  }

  predicate KeptModes(s: Word, t: Word) { Prv(t) == Prv(s) && Prv1(t) == Prv1(s) && Prv2(t) == Prv2(s) && Vm(t) == Vm(s) }

  predicate KeptEnables(s: Word, t: Word) { Ie(t) == Ie(s) && Ie1(t) == Ie1(s) && Ie2(t) == Ie2(s) && Mprv(t) == Mprv(s) }

  /** A unit is dirty exactly when its field holds 3. */
  lemma DirtyExactly(s: Word)
    ensures Dirty(s) <==> Fs(s) == 3 || Xs(s) == 3
  {
  }

  /** A write flushes exactly when it asks for another VM, PRV, PRV1 or MPRV. */
  lemma FlushesExactly(s: Word, val: Word)
    ensures Flushes(s, val) <==> Vm(val) != Vm(s) || Prv(val) != Prv(s) || Prv1(val) != Prv1(s) || Mprv(val) != Mprv(s)
  {
  }

  lemma FieldsShowEnables(s: Word)
    ensures var r := SstatusFields(s); Ie(r) == Ie(s) && Ie1(r) == Ie1(s) && Mprv(r) == Mprv(s)
  {
  }

  lemma FieldsShowUnits(s: Word)
    ensures var r := SstatusFields(s); Fs(r) == Fs(s) && Xs(r) == Xs(s) && Ps(r) == Prv1(s) & 1
  {
  }

  lemma FieldsHide(s: Word)
    ensures var r := SstatusFields(s); Prv(r) == 0 && Prv2(r) == 0 && Vm(r) == 0 && Ie2(r) == 0
  {
  }

  lemma PsFrame(t: Word, v: Word, rv64: bool)
    ensures Ps(SetSd(t, v, rv64)) == Ps(t)
  {
  }

  /** What sstatus shows of mstatus: the supervisor's enables, mode, units and MPRV, and
      nothing of the machine's. */
  lemma SstatusShows(s: Word, rv64: bool)
    ensures var r := ReadSstatus(s, rv64);
      && Ie(r) == Ie(s) && Ie1(r) == Ie1(s) && Ps(r) == Prv1(s) & 1 && Mprv(r) == Mprv(s)
      && Fs(r) == Fs(s) && Xs(r) == Xs(s)
      && Prv(r) == 0 && Prv2(r) == 0 && Vm(r) == 0 && Ie2(r) == 0
  {
    hide SstatusFields, SetSd, Ie, Ie1, Ie2, Ps, Prv, Prv1, Prv2, Mprv, Fs, Xs, Vm, Dirty;
    var f := SstatusFields(s);
    FieldsShowEnables(s);
    FieldsShowUnits(s);
    FieldsHide(s);
    SdFrameFlags(f, 1, rv64);
    SdFrameModes(f, 1, rv64);
    SdFrameDirty(f, 1, rv64);
    PsFrame(f, 1, rv64);
  }

  lemma TouchFields(s: Word, rv64: bool)
    ensures forall t | t == TouchFp(s, rv64) || t == TouchExt(s, rv64) ::
      && Prv(t) == Prv(s) && Prv1(t) == Prv1(s) && Prv2(t) == Prv2(s) && Vm(t) == Vm(s) && Mprv(t) == Mprv(s)
      && Dirty(t) && (if rv64 then Sd64(t) == 1 && Sd32(t) == Sd32(s) else Sd32(t) == 1 && Sd64(t) == Sd64(s))
  {
  }

  lemma TouchLegal(s: Word, rv64: bool)
    requires Legal(s, rv64)
    ensures Legal(TouchFp(s, rv64), rv64) && Legal(TouchExt(s, rv64), rv64)
  {
    hide Dirty, TouchFp, TouchExt, Prv, Prv1, Prv2, Vm, Mprv, Sd32, Sd64;
    TouchFields(s, rv64);
  }

  // ---------------------------------------------------------- the privilege stack

  lemma PushVm(s: Word)
    ensures Vm(PushValue(s)) == Vm(s)
  {
    assert PushValue(s) & 0x3E_0000 == s & 0x3E_0000;
  }

  lemma PushModes(s: Word)
    ensures var t := PushValue(s);
      Prv(t) == MACHINE && Mprv(t) == 0
  {
  }

  lemma PushLevels(s: Word)
    ensures var t := PushValue(s); Prv1(t) == Prv(s) && Prv2(t) == Prv1(s)
  {
  }

  lemma PushEnables(s: Word)
    ensures var t := PushValue(s); Ie(t) == 0 && Ie1(t) == Ie(s) && Ie2(t) == Ie1(s)
  {
  }

  lemma PopVm(s: Word)
    ensures Vm(PopValue(s)) == Vm(s)
  {
    assert PopValue(s) & 0x3E_0000 == s & 0x3E_0000;
  }

  lemma PopModes(s: Word)
    ensures var t := PopValue(s);
      Prv(t) == Prv1(s) && Mprv(t) == Mprv(s)
  {
  }

  lemma PopLevels(s: Word)
    ensures var t := PopValue(s); Prv1(t) == Prv2(s) && Prv2(t) == USER
  {
  }

  lemma PopEnables(s: Word)
    ensures var t := PopValue(s); Ie(t) == Ie1(s) && Ie1(t) == Ie2(s) && Ie2(t) == 1
  {
  }

  function Push(s: Word, rv64: bool, ext: bool): Word { Write(s, PushValue(s), rv64, ext) }

  function Pop(s: Word, rv64: bool, ext: bool): Word { Write(s, PopValue(s), rv64, ext) }

  /** One level of the stack: a privilege mode and its interrupt enable. */
  datatype Level = Level(prv: Word, ie: Word)

  function Stack(s: Word): (r: seq<Level>)
    ensures |r| == 3
  {
    [Level(Prv(s), Ie(s)), Level(Prv1(s), Ie1(s)), Level(Prv2(s), Ie2(s))]
  }

  const TRAPPED := Level(MACHINE, 0)
  const BOTTOM := Level(USER, 1)

  lemma PushStack(s: Word, rv64: bool, ext: bool)
    requires Legal(s, rv64)
    ensures var t := Push(s, rv64, ext); Legal(t, rv64) && Stack(t) == [TRAPPED] + Stack(s)[..2]
    ensures Mprv(Push(s, rv64, ext)) == 0
  {
    hide Write, PushValue, Dirty, Ie, Ie1, Ie2, Mprv, Fs, Xs, Vm, Prv, Prv1, Prv2, Sd32, Sd64;
    PushVm(s);
    PushModes(s);
    PushLevels(s);
    PushEnables(s);
    WriteFields(s, PushValue(s), rv64, ext);
    WriteLegal(s, PushValue(s), rv64, ext);
  }

  lemma PopStack(s: Word, rv64: bool, ext: bool)
    requires Legal(s, rv64)
    ensures var t := Pop(s, rv64, ext); Legal(t, rv64) && Stack(t) == Stack(s)[1..] + [BOTTOM]
    ensures Mprv(Pop(s, rv64, ext)) == Mprv(s)
  {
    hide Write, PopValue, Dirty, Ie, Ie1, Ie2, Mprv, Fs, Xs, Vm, Prv, Prv1, Prv2, Sd32, Sd64;
    PopVm(s);
    PopModes(s);
    PopLevels(s);
    PopEnables(s);
    WriteFields(s, PopValue(s), rv64, ext);
    WriteLegal(s, PopValue(s), rv64, ext);
  }

  /** A trap and its return leave the interrupted code's mode and interrupt enable,
      and the level below it, as they were. */
  lemma PopAfterPush(s: Word, rv64: bool, ext: bool)
    requires Legal(s, rv64)
    ensures var t := Pop(Push(s, rv64, ext), rv64, ext);
            Prv(t) == Prv(s) && Ie(t) == Ie(s) && Prv1(t) == Prv1(s) && Ie1(t) == Ie1(s)
  {
    hide Push, Pop, Legal, Ie, Ie1, Ie2, Prv, Prv1, Prv2, Mprv;
    var u := Push(s, rv64, ext);
    PushStack(s, rv64, ext);
    PopStack(u, rv64, ext);
    var t := Pop(u, rv64, ext);
    assert Stack(t)[0] == Stack(s)[0] && Stack(t)[1] == Stack(s)[1];
  }

  function Pushes(s: Word, n: nat, rv64: bool, ext: bool): Word {
    if n == 0 then s else Push(Pushes(s, n - 1, rv64, ext), rv64, ext)
  }

  function Pops(s: Word, n: nat, rv64: bool, ext: bool): Word {
    if n == 0 then s else Pop(Pops(s, n - 1, rv64, ext), rv64, ext)
  }

  /** The stack after n pushes of top on it, and after n pops. */
  ghost predicate Pushed(old_: seq<Level>, new_: seq<Level>, n: nat, top: Level)
    requires |old_| == |new_| == 3
  {
    forall k | 0 <= k < 3 :: new_[k] == if k < n then top else old_[k - n]
  }

  ghost predicate Popped(old_: seq<Level>, new_: seq<Level>, n: nat, bottom: Level)
    requires |old_| == |new_| == 3
  {
    forall k | 0 <= k < 3 :: new_[k] == if k + n < 3 then old_[k + n] else bottom
  }

  lemma {:induction false} PushesStack(s: Word, n: nat, rv64: bool, ext: bool)
    requires Legal(s, rv64)
    ensures Legal(Pushes(s, n, rv64, ext), rv64) && Pushed(Stack(s), Stack(Pushes(s, n, rv64, ext)), n, TRAPPED)
  {
    hide Push, Legal, Stack, Pushed;
    if n > 0 {
      var u := Pushes(s, n - 1, rv64, ext);
      PushesStack(s, n - 1, rv64, ext);
      PushStack(u, rv64, ext);
      OnePush(Stack(s), Stack(u), n, TRAPPED);
    } else {
      NoPush(Stack(s), TRAPPED);
    }
  }

  lemma OnePush(old_: seq<Level>, mid: seq<Level>, n: nat, top: Level)
    requires n > 0 && |old_| == |mid| == 3 && Pushed(old_, mid, n - 1, top)
    ensures Pushed(old_, [top] + mid[..2], n, top)
  {
  }

  lemma NoPush(old_: seq<Level>, x: Level)
    requires |old_| == 3
    ensures Pushed(old_, old_, 0, x) && Popped(old_, old_, 0, x)
  {
  }

  lemma OnePop(old_: seq<Level>, mid: seq<Level>, n: nat, bottom: Level)
    requires n > 0 && |old_| == |mid| == 3 && Popped(old_, mid, n - 1, bottom)
    ensures Popped(old_, mid[1..] + [bottom], n, bottom)
  {
  }

  lemma {:induction false} PopsStack(s: Word, n: nat, rv64: bool, ext: bool)
    requires Legal(s, rv64)
    ensures Legal(Pops(s, n, rv64, ext), rv64) && Popped(Stack(s), Stack(Pops(s, n, rv64, ext)), n, BOTTOM)
  {
    hide Pop, Legal, Stack, Popped;
    if n > 0 {
      var u := Pops(s, n - 1, rv64, ext);
      PopsStack(s, n - 1, rv64, ext);
      PopStack(u, rv64, ext);
      OnePop(Stack(s), Stack(u), n, BOTTOM);
    } else {
      NoPush(Stack(s), BOTTOM);
    }
  }

  /** How deep traps may nest: n returns undo n traps for the interrupted code exactly
      when n is at most two, or that code ran in user mode with interrupts enabled. */
  lemma NestingDepth(s: Word, n: nat, rv64: bool, ext: bool)
    requires Legal(s, rv64)
    ensures var t := Pops(Pushes(s, n, rv64, ext), n, rv64, ext);
            (Prv(t) == Prv(s) && Ie(t) == Ie(s)) <==> (n <= 2 || (Prv(s) == USER && Ie(s) == 1))
  {
    hide Pushes, Pops, Legal, Ie, Ie1, Ie2, Prv, Prv1, Prv2;
    var u := Pushes(s, n, rv64, ext);
    var t := Pops(u, n, rv64, ext);
    PushesStack(s, n, rv64, ext);
    PopsStack(u, n, rv64, ext);
    assert Stack(t)[0] == Level(Prv(t), Ie(t));
    assert Stack(s)[0] == Level(Prv(s), Ie(s));
  }

  // ----------------------------------------------------------------------- sstatus

  lemma SstatusVm(s: Word, val: Word)
    ensures Vm(FromSstatus(s, val)) == Vm(s)
  {
    assert FromSstatus(s, val) & 0x3E_0000 == s & 0x3E_0000;
  }

  lemma SstatusModes(s: Word, val: Word)
    ensures var t := FromSstatus(s, val);
      Prv(t) == Prv(s) && Prv2(t) == Prv2(s)
  {
  }

  lemma SstatusPrevious(s: Word, val: Word)
    ensures Prv1(FromSstatus(s, val)) == Ps(val) && Ps(val) <= 1
  {
  }

  lemma SstatusEnables(s: Word, val: Word)
    ensures var t := FromSstatus(s, val);
      Ie2(t) == Ie2(s) && Ie(t) == Ie(val) && Ie1(t) == Ie1(val) && Mprv(t) == Mprv(val)
  {
  }

  lemma SstatusUnits(s: Word, val: Word)
    ensures var t := FromSstatus(s, val); Fs(t) == Fs(val) && Xs(t) == Xs(val)
  {
  }

  /** Writing back what sstatus shows changes no field, if the previous mode is one a
      supervisor can write. */
  lemma SstatusWrittenBack(s: Word, rv64: bool)
    requires Prv1(s) <= SUPERVISOR
    ensures var t := FromSstatus(s, ReadSstatus(s, rv64)); KeptModes(s, t) && KeptEnables(s, t) && Fs(t) == Fs(s) && Xs(t) == Xs(s)
  {
    hide FromSstatus, ReadSstatus, Ie, Ie1, Ie2, Ps, Prv, Prv1, Prv2, Mprv, Fs, Xs, Vm;
    var val := ReadSstatus(s, rv64);
    SstatusShows(s, rv64);
    SstatusVm(s, val);
    SstatusModes(s, val);
    SstatusPrevious(s, val);
    SstatusEnables(s, val);
    SstatusUnits(s, val);
    LowBitOnly(Prv1(s));
  }

  lemma LowBitOnly(v: Word)
    ensures v <= 1 ==> v & 1 == v
  {
  }

  /** A write to sstatus leaves the current mode, the translation scheme and the deepest
      level alone, and can only name user or supervisor mode as the previous one. */
  lemma SstatusConfined(s: Word, val: Word, rv64: bool, ext: bool)
    requires Legal(s, rv64)
    ensures var t := Write(s, FromSstatus(s, val), rv64, ext);
      && Prv(t) == Prv(s) && Vm(t) == Vm(s) && Stack(t)[2] == Stack(s)[2]
      && Prv1(t) == Ps(val) && Prv1(t) <= SUPERVISOR
      && Ie(t) == Ie(val) && Ie1(t) == Ie1(val) && Fs(t) == Fs(val) && Mprv(t) == Mprv(val)
      && Xs(t) == Xs(if ext then val else s)
  {
    hide Write, FromSstatus, Dirty, Ie, Ie1, Ie2, Mprv, Fs, Xs, Vm, Prv, Prv1, Prv2, Sd32, Sd64, Ps;
    SstatusVm(s, val);
    SstatusModes(s, val);
    SstatusPrevious(s, val);
    SstatusEnables(s, val);
    SstatusUnits(s, val);
    WriteFields(s, FromSstatus(s, val), rv64, ext);
  }

  lemma SstatusSdBit(s: Word, rv64: bool)
    ensures (if rv64 then Sd64(ReadSstatus(s, rv64)) else Sd32(ReadSstatus(s, rv64))) == if Sd64(s) != 0 then 1 else 0
  {
  }

  /** The summary bit a read of sstatus shows is right exactly when the register is
      64 bits wide or nothing is dirty: the read looks only at bit 63. */
  lemma SstatusSdExactly(s: Word, rv64: bool)
    requires Legal(s, rv64)
    ensures var sd := if rv64 then Sd64(ReadSstatus(s, rv64)) else Sd32(ReadSstatus(s, rv64));
            (sd == 1 <==> Dirty(s)) <==> (rv64 || !Dirty(s))
  {
    hide ReadSstatus, Dirty, Sd32;
    SstatusSdBit(s, rv64);
  }
}
