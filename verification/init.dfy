/**
 * `EFC_Init`: derive the flash timing from the core clock and store it in the
 * control register's clock-divider fields and the five timing registers.
 *
 * The core clock (SystemCoreClock, a 32-bit unsigned value) is a parameter;
 * where it comes from is not part of this model. All arithmetic is on `bv32`,
 * so the driver's unsigned wrap-around is the model's.
 */
module EfcInit {
  import opened EfcRegisters

  datatype Option<T> = None | Some(value: T)

  const OneMHz: bv32 := 1_000_000
  const TwoMHz: bv32 := 2_000_000

  /** The divider value of CR and the five timing register values of one clock band. */
  datatype Timing = Timing(crBits: bv32, tnvs: bv32, tprog: bv32, tpgs: bv32, trcv: bv32, ters: bv32)

  /** The program-clock divider of the general band, `f / 2000000 - 1` in 32-bit unsigned arithmetic. */
  function GeneralDivider(f: bv32): bv32 {
    f / TwoMHz - 1
  }

  /**
   * From 2 MHz up the divider is one less than the quotient, with no
   * wrap-around; below 2 MHz the quotient is zero and the subtraction wraps
   * to all ones.
   */
  lemma GeneralDividerRange(f: bv32)
    ensures f >= TwoMHz ==> GeneralDivider(f) < f / TwoMHz && GeneralDivider(f) + 1 == f / TwoMHz
    ensures f < TwoMHz ==> GeneralDivider(f) == 0xffff_ffff
  {
  }

  /** Bits 16..21 of a CR value, where the program-clock divider sits. */
  function DividerField(cr: bv32): bv32 {
    (cr >> 16) & 0x3f
  }

  /** The general band's CR value `(d << 16) | (0x3e7 << 22)` for divider `d`. */
  function GeneralCrBits(d: bv32): bv32 {
    (d << 16) | (0x3e7 << 22)
  }

  /**
   * The clock-band table: none below 1 MHz, fixed values at exactly 1 MHz
   * and exactly 2 MHz, and a divider computed from the clock everywhere else.
   */
  function ClockTiming(f: bv32): (t: Option<Timing>)
    ensures t.None? <==> f < OneMHz
    ensures f == OneMHz ==> t == Some(Timing(0x3e41_0000, 0x03, 0x03, 0x01, 0x4_3e79, 0x4c6))
    ensures f == TwoMHz ==> t == Some(Timing(0x7cc1_0000, 0x06, 0x06, 0x04, 0x6_7af1, 0x4c6))
    ensures f > OneMHz && f != TwoMHz ==>
      t == Some(Timing(GeneralCrBits(GeneralDivider(f)), 0x0e, 0x0e, 0x0c, 0xc_f1e0, 0x4c6))
    ensures t.Some? ==> t.value.ters == 0x4c6 && t.value.crBits & 0xffff == 0
  {
    if f < OneMHz then None
    else if f == OneMHz then
      Some(Timing((1 << 16) | (0xf9 << 22), 0x03, 0x03, 0x01, (0x4 << 16) | (0x1f << 9) | 0x79, (0x09 << 7) | 0x46))
    else if f == TwoMHz then
      Some(Timing((1 << 16) | (0x1f3 << 22), 0x06, 0x06, 0x04, (0x6 << 16) | (0x3d << 9) | 0xf1, (0x09 << 7) | 0x46))
    else
      Some(Timing(GeneralCrBits(GeneralDivider(f)), 0x0e, 0x0e, 0x0c, 0xcf1e0, 0x4c6))
  }

  /**
   * Where a divider value `d` lands in the general band's CR value: the low
   * half of CR is not touched, bits 16..21 carry the low six bits of `d`, and
   * bits 22..31 carry 0x3e7 together with whatever bits of `d` lie above bit 5.
   */
  lemma DividerPlacement(d: bv32)
    ensures var cr := GeneralCrBits(d);
      && cr & 0xffff == 0
      && (cr >> 16) & 0x3f == d & 0x3f
      && cr >> 22 == 0x3e7 | ((d >> 6) & 0x3ff)
  {
  }

  /**
   * Between 1 MHz and 2 MHz the divider wraps, so CR receives all ones in
   * bits 16..31: both divider fields are saturated.
   */
  lemma GeneralBandWrapsBelowTwoMHz(f: bv32)
    requires OneMHz < f < TwoMHz
    ensures GeneralDivider(f) == 0xffff_ffff
    ensures ClockTiming(f).value.crBits == 0xffff_0000
  {
    GeneralDividerRange(f);
    assert ClockTiming(f).value.crBits == GeneralCrBits(0xffff_ffff);
  }

  /**
   * Up to 130 MHz the divider fits in six bits, so the general band's CR
   * value holds the divider in bits 16..21 and exactly 0x3e7 in bits 22..31.
   */
  lemma GeneralBandDividerFits(f: bv32)
    requires TwoMHz < f < 130_000_000
    ensures GeneralDivider(f) < 64
    ensures GeneralCrBits(GeneralDivider(f)) >> 22 == 0x3e7
    ensures DividerField(GeneralCrBits(GeneralDivider(f))) == GeneralDivider(f)
  {
    DividerBelow64(f);
    SmallDividerPlacement(GeneralDivider(f));
  }

  lemma GeneralBandCr(f: bv32)
    requires f > OneMHz && f != TwoMHz
    ensures ClockTiming(f).value.crBits == GeneralCrBits(GeneralDivider(f))
  {
  }

  lemma SmallDividerPlacement(d: bv32)
    requires d < 64
    ensures GeneralCrBits(d) >> 22 == 0x3e7
    ensures DividerField(GeneralCrBits(d)) == d
  {
    DividerPlacement(d);
  }

  lemma DividerBelow64(f: bv32)
    requires TwoMHz < f < 130_000_000
    ensures GeneralDivider(f) < 64
  {
  }

  /** The clear-then-set that `EFC_Init` applies to CR, as two read-modify-writes. */
  function ClearThenSet(cr: bv32, mask: bv32, bits: bv32): bv32 {
    SetBits(ClearBits(cr, mask), bits)
  }

  /**
   * A bit of CR outside `mask` survives the clear-then-set exactly when
   * `bits` does not set it anew; so the bits outside the mask all keep their
   * value iff every bit `bits` sets outside the mask was already set.
   */
  lemma OutsideMaskKept(cr: bv32, mask: bv32, bits: bv32)
    ensures ClearBits(ClearThenSet(cr, mask, bits), mask) == ClearBits(cr, mask) <==> bits & !mask & !cr == 0
  {
    if bits & !mask & !cr == 0 {
      NoNewBitsKeepsOutside(cr, mask, bits);
    } else if ((cr & !mask) | bits) & !mask == cr & !mask {
      KeptOutsideHasNoNewBits(cr, mask, bits);
    }
  }

  lemma NoNewBitsKeepsOutside(cr: bv32, mask: bv32, bits: bv32)
    requires bits & !mask & !cr == 0
    ensures ((cr & !mask) | bits) & !mask == cr & !mask
  {
  }

  lemma KeptOutsideHasNoNewBits(cr: bv32, mask: bv32, bits: bv32)
    requires ((cr & !mask) | bits) & !mask == cr & !mask
    ensures bits & !mask & !cr == 0
  {
  }

  /** The bits outside `mask` keep their value for every prior CR iff `bits` lies inside `mask`. */
  lemma OutsideMaskKeptForAll(mask: bv32, bits: bv32)
    ensures (forall cr :: ClearBits(ClearThenSet(cr, mask, bits), mask) == ClearBits(cr, mask)) <==> bits & !mask == 0
  {
    if bits & !mask != 0 {
      OutsideMaskKept(0, mask, bits);
    }
  }

  /** The seven protected stores of `EFC_Init`, given the prior CR and the band's timing. */
  function InitWrites(m: RegisterMap, cr: bv32, t: Timing): seq<RegWrite> {
    var cleared := ClearBits(cr, DividerMask(m));
    [ RegWrite(CR, cleared), RegWrite(CR, SetBits(cleared, t.crBits)), RegWrite(TNVS, t.tnvs),
      RegWrite(TPROG, t.tprog), RegWrite(TPGS, t.tpgs), RegWrite(TRCV, t.trcv), RegWrite(TERS, t.ters) ]
  }

  /** Result of `EFC_Init`: the returned flag and the events issued. */
  datatype InitRun = InitRun(ok: bool, trace: seq<Event>)

  /**
   * EFC_Init for core clock `f`, with `regs` the protected registers before
   * the call. Below 1 MHz it fails without touching the controller;
   * otherwise it issues seven protected stores, each right after its own
   * unlock, that leave CR's divider fields and the timing registers holding
   * the clock band's values and every other CR bit as the clear-then-set
   * leaves it.
   */
  function Init(m: RegisterMap, f: bv32, regs: CtrlFile): (r: InitRun)
    ensures r.ok <==> f >= OneMHz
    ensures !r.ok ==> r.trace == []
    ensures r.ok ==> |r.trace| == 14 && UnlockGuarded(r.trace)
    ensures r.ok ==> Targets(WriteLog(r.trace)) == [CR, CR, TNVS, TPROG, TPGS, TRCV, TERS]
    ensures r.ok ==> WriteLog(r.trace)[0] == RegWrite(CR, ClearBits(regs.cr, DividerMask(m)))
    // A corollary of the clause above: the first store leaves both divider fields zero.
    ensures r.ok ==> WriteLog(r.trace)[0].value & DividerMask(m) == 0
    ensures r.ok ==> var t := ClockTiming(f).value;
      Replay(regs, r.trace) == CtrlFile(ClearThenSet(regs.cr, DividerMask(m), t.crBits), t.tnvs, t.tprog, t.tpgs, t.trcv, t.ters)
  {
    match ClockTiming(f)
    case None => InitRun(false, [])
    case Some(t) =>
      InitTrace(m, regs, t);
      InitRun(true, ProtectedWrites(InitWrites(m, regs.cr, t)))
  }

  /** The events of `EFC_Init` once a band's timing is chosen. */
  lemma InitTrace(m: RegisterMap, regs: CtrlFile, t: Timing)
    ensures var tr := ProtectedWrites(InitWrites(m, regs.cr, t));
      && |tr| == 14 && UnlockGuarded(tr)
      && Targets(WriteLog(tr)) == [CR, CR, TNVS, TPROG, TPGS, TRCV, TERS]
      && WriteLog(tr)[0] == RegWrite(CR, ClearBits(regs.cr, DividerMask(m)))
      && WriteLog(tr)[0].value & DividerMask(m) == 0
      && Replay(regs, tr) == CtrlFile(ClearThenSet(regs.cr, DividerMask(m), t.crBits), t.tnvs, t.tprog, t.tpgs, t.trcv, t.ters)
  {
    var ws := InitWrites(m, regs.cr, t);
    ReplayInitWrites(m, regs, t);
    ProtectedWritesShape(ws);
    InitWritesTargets(m, regs.cr, t);
  }

  /** The stores of `EFC_Init` target CR twice, then each timing register once; the first clears the divider fields. */
  lemma InitWritesTargets(m: RegisterMap, cr: bv32, t: Timing)
    ensures Targets(InitWrites(m, cr, t)) == [CR, CR, TNVS, TPROG, TPGS, TRCV, TERS]
    ensures InitWrites(m, cr, t)[0].value & DividerMask(m) == 0
  {
    var cleared := ClearBits(cr, DividerMask(m));
    ClearedFieldsAreZero(cr, DividerMask(m));
    SevenStoresTargets(cleared, SetBits(cleared, t.crBits), t.tnvs, t.tprog, t.tpgs, t.trcv, t.ters);
  }

  lemma ClearedFieldsAreZero(v: bv32, mask: bv32)
    ensures ClearBits(v, mask) & mask == 0
  {
  }

  lemma SevenStoresTargets(cr0: bv32, cr1: bv32, tnvs: bv32, tprog: bv32, tpgs: bv32, trcv: bv32, ters: bv32)
    ensures Targets([ RegWrite(CR, cr0), RegWrite(CR, cr1), RegWrite(TNVS, tnvs),
      RegWrite(TPROG, tprog), RegWrite(TPGS, tpgs), RegWrite(TRCV, trcv), RegWrite(TERS, ters) ])
      == [CR, CR, TNVS, TPROG, TPGS, TRCV, TERS]
  {
    var ws := [ RegWrite(CR, cr0), RegWrite(CR, cr1), RegWrite(TNVS, tnvs),
      RegWrite(TPROG, tprog), RegWrite(TPGS, tpgs), RegWrite(TRCV, trcv), RegWrite(TERS, ters) ];
    assert ws[6..][1..] == [];
    assert Targets(ws[6..]) == [TERS];
    assert ws[5..][1..] == ws[6..];
    assert Targets(ws[5..]) == [TRCV, TERS];
    assert ws[4..][1..] == ws[5..];
    assert Targets(ws[4..]) == [TPGS, TRCV, TERS];
    assert ws[3..][1..] == ws[4..];
    assert Targets(ws[3..]) == [TPROG, TPGS, TRCV, TERS];
    assert ws[2..][1..] == ws[3..];
    assert Targets(ws[2..]) == [TNVS, TPROG, TPGS, TRCV, TERS];
    assert ws[1..][1..] == ws[2..];
  }

  /** Replaying the seven stores of `EFC_Init` applies them one after another. */
  lemma ReplayInitWrites(m: RegisterMap, regs: CtrlFile, t: Timing)
    ensures Replay(regs, ProtectedWrites(InitWrites(m, regs.cr, t)))
         == CtrlFile(ClearThenSet(regs.cr, DividerMask(m), t.crBits), t.tnvs, t.tprog, t.tpgs, t.trcv, t.ters)
  {
    var cleared := ClearBits(regs.cr, DividerMask(m));
    ReplaySevenStores(regs, cleared, SetBits(cleared, t.crBits), t.tnvs, t.tprog, t.tpgs, t.trcv, t.ters);
  }

  /** Two stores to CR and one to each timing register leave the last CR value and the timing values. */
  lemma ReplaySevenStores(regs: CtrlFile, cr0: bv32, cr1: bv32, tnvs: bv32, tprog: bv32, tpgs: bv32, trcv: bv32, ters: bv32)
    ensures Replay(regs, ProtectedWrites([ RegWrite(CR, cr0), RegWrite(CR, cr1), RegWrite(TNVS, tnvs),
      RegWrite(TPROG, tprog), RegWrite(TPGS, tpgs), RegWrite(TRCV, trcv), RegWrite(TERS, ters) ]))
         == CtrlFile(cr1, tnvs, tprog, tpgs, trcv, ters)
  {
    var ws := [ RegWrite(CR, cr0), RegWrite(CR, cr1), RegWrite(TNVS, tnvs),
      RegWrite(TPROG, tprog), RegWrite(TPGS, tpgs), RegWrite(TRCV, trcv), RegWrite(TERS, ters) ];
    ReplayProtectedWrites(regs, ws);
    var f1 := Store(regs, ws[0]);
    var f2 := Store(f1, ws[1]);
    var f3 := Store(f2, ws[2]);
    var f4 := Store(f3, ws[3]);
    var f5 := Store(f4, ws[4]);
    var f6 := Store(f5, ws[5]);
    var f7 := Store(f6, ws[6]);
    assert StoreAll(f6, ws[6..]) == f7 by {
      assert ws[6..][1..] == [];
    }
    assert StoreAll(f4, ws[4..]) == StoreAll(f6, ws[6..]) by {
      assert ws[4..][1..] == ws[5..];
      assert ws[5..][1..] == ws[6..];
    }
    assert StoreAll(f2, ws[2..]) == StoreAll(f4, ws[4..]) by {
      assert ws[2..][1..] == ws[3..];
      assert ws[3..][1..] == ws[4..];
    }
    assert StoreAll(regs, ws) == StoreAll(f2, ws[2..]) by {
      assert ws[1..][1..] == ws[2..];
    }
  }

  /**
   * With the divider fields covering bit 16 and bits 22..31 (where the
   * driver shifts its divider values to), both fixed bands leave every CR
   * bit outside the divider fields as it was.
   */
  predicate CoversDividerFields(m: RegisterMap) {
    0xffc1_0000 & !DividerMask(m) == 0
  }

  /**
   * Whenever the band's CR value lies inside the divider fields, `EFC_Init`
   * leaves every CR bit outside those fields as it was.
   */
  lemma InitKeepsOtherCrBits(m: RegisterMap, f: bv32, regs: CtrlFile)
    requires f >= OneMHz
    requires ClockTiming(f).value.crBits & !DividerMask(m) == 0
    ensures ClearBits(Replay(regs, Init(m, f, regs).trace).cr, DividerMask(m)) == ClearBits(regs.cr, DividerMask(m))
  {
    OutsideMaskKept(regs.cr, DividerMask(m), ClockTiming(f).value.crBits);
  }

  lemma FixedBandsKeepOtherCrBits(m: RegisterMap, f: bv32, regs: CtrlFile)
    requires f == OneMHz || f == TwoMHz
    requires CoversDividerFields(m)
    ensures ClearBits(Replay(regs, Init(m, f, regs).trace).cr, DividerMask(m)) == ClearBits(regs.cr, DividerMask(m))
  {
    InitKeepsOtherCrBits(m, f, regs);
  }

  /**
   * In the general band the CR bits outside the divider fields keep their
   * value for every prior CR iff the value OR'd in lies inside the divider
   * fields.
   */
  lemma GeneralBandKeepsOtherCrBits(m: RegisterMap, f: bv32)
    requires f > OneMHz && f != TwoMHz
    ensures (forall cr :: ClearBits(ClearThenSet(cr, DividerMask(m), ClockTiming(f).value.crBits), DividerMask(m)) == ClearBits(cr, DividerMask(m)))
        <==> GeneralCrBits(GeneralDivider(f)) & !DividerMask(m) == 0
  {
    GeneralBandCr(f);
    OutsideMaskKeptForAll(DividerMask(m), ClockTiming(f).value.crBits);
  }

  /** Divider fields that cover bits 16..31 hold every CR value the band table produces. */
  lemma UpperHalfMaskHoldsCrBits(m: RegisterMap, f: bv32)
    requires f >= OneMHz
    requires 0xffff_0000 & !DividerMask(m) == 0
    ensures ClockTiming(f).value.crBits & !DividerMask(m) == 0
  {
    var bits := ClockTiming(f).value.crBits;
    assert bits & 0xffff == 0;
    InsideUpperHalf(bits, DividerMask(m));
  }

  lemma InsideUpperHalf(bits: bv32, mask: bv32)
    requires bits & 0xffff == 0
    requires 0xffff_0000 & !mask == 0
    ensures bits & !mask == 0
  {
  }
}
