/**
 * `EFC_EnableIRQ` and `EFC_DisableIRQ`: one unlock, then a read-modify-write
 * of CR that sets or clears the seven interrupt-enable bits together.
 */
module EfcIrq {
  import opened EfcRegisters

  /** CR after `EFC_EnableIRQ`: every enable bit set, every other bit as before. */
  function EnabledCr(mask: bv32, cr: bv32): (r: bv32)
    ensures r & mask == mask
    ensures r & !mask == cr & !mask
  {
    SetBits(cr, mask)
  }

  /** CR after `EFC_DisableIRQ`: every enable bit clear, every other bit as before. */
  function DisabledCr(mask: bv32, cr: bv32): (r: bv32)
    ensures r & mask == 0
    ensures r & !mask == cr & !mask
  {
    ClearBits(cr, mask)
  }

  /**
   * EFC_EnableIRQ, given the protected registers before the call: one
   * guarded store to CR that changes nothing but CR.
   */
  function EnableIrq(m: RegisterMap, regs: CtrlFile): (t: seq<Event>)
    ensures |t| == 2 && UnlockGuarded(t)
    ensures WriteLog(t) == [RegWrite(CR, EnabledCr(IrqMask(m), regs.cr))]
    ensures Replay(regs, t) == regs.(cr := EnabledCr(IrqMask(m), regs.cr))
  {
    var cr := EnabledCr(IrqMask(m), regs.cr);
    ReplayOneStore(regs, cr);
    ProtectedWritesShape([RegWrite(CR, cr)]);
    ProtectedWrites([RegWrite(CR, cr)])
  }

  /** EFC_DisableIRQ, given the protected registers before the call. */
  function DisableIrq(m: RegisterMap, regs: CtrlFile): (t: seq<Event>)
    ensures |t| == 2 && UnlockGuarded(t)
    ensures WriteLog(t) == [RegWrite(CR, DisabledCr(IrqMask(m), regs.cr))]
    ensures Replay(regs, t) == regs.(cr := DisabledCr(IrqMask(m), regs.cr))
  {
    var cr := DisabledCr(IrqMask(m), regs.cr);
    ReplayOneStore(regs, cr);
    ProtectedWritesShape([RegWrite(CR, cr)]);
    ProtectedWrites([RegWrite(CR, cr)])
  }

  lemma ReplayOneStore(regs: CtrlFile, cr: bv32)
    ensures Replay(regs, ProtectedWrites([RegWrite(CR, cr)])) == regs.(cr := cr)
  {
    ReplayProtectedWrites(regs, [RegWrite(CR, cr)]);
    assert [RegWrite(CR, cr)][1..] == [];
  }

  lemma EnabledIs(mask: bv32, cr: bv32)
    ensures EnabledCr(mask, cr) == cr | mask
  {
  }

  lemma DisabledIs(mask: bv32, cr: bv32)
    ensures DisabledCr(mask, cr) == cr & !mask
  {
  }

  lemma ClearAfterSet(v: bv32, mask: bv32)
    ensures (v | mask) & !mask == v & !mask
  {
  }

  lemma SetAfterClear(v: bv32, mask: bv32)
    ensures (v & !mask) | mask == v | mask
  {
  }

  lemma ClearNothing(v: bv32, mask: bv32)
    requires v & mask == 0
    ensures v & !mask == v
  {
  }

  lemma ClearSomething(v: bv32, mask: bv32)
    requires v & mask != 0
    ensures v & !mask != v
  {
  }

  lemma SetNothing(v: bv32, mask: bv32)
    requires v & mask == mask
    ensures v | mask == v
  {
  }

  lemma SetSomething(v: bv32, mask: bv32)
    requires v & mask != mask
    ensures v | mask != v
  {
  }

  /** Enabling twice leaves CR as enabling once. */
  lemma EnableIdempotent(mask: bv32, cr: bv32)
    ensures EnabledCr(mask, EnabledCr(mask, cr)) == EnabledCr(mask, cr)
  {
    var e := EnabledCr(mask, cr);
    EnabledIs(mask, e);
    SetNothing(e, mask);
  }

  /** Disabling twice leaves CR as disabling once. */
  lemma DisableIdempotent(mask: bv32, cr: bv32)
    ensures DisabledCr(mask, DisabledCr(mask, cr)) == DisabledCr(mask, cr)
  {
    var d := DisabledCr(mask, cr);
    DisabledIs(mask, d);
    ClearNothing(d, mask);
  }

  /** Disabling after enabling ends where disabling alone ends: the last call decides. */
  lemma DisableAfterEnable(mask: bv32, cr: bv32)
    ensures DisabledCr(mask, EnabledCr(mask, cr)) == DisabledCr(mask, cr)
  {
    EnabledIs(mask, cr);
    DisabledIs(mask, cr);
    DisabledIs(mask, EnabledCr(mask, cr));
    ClearAfterSet(cr, mask);
  }

  /** Enabling after disabling ends where enabling alone ends. */
  lemma EnableAfterDisable(mask: bv32, cr: bv32)
    ensures EnabledCr(mask, DisabledCr(mask, cr)) == EnabledCr(mask, cr)
  {
    EnabledIs(mask, cr);
    DisabledIs(mask, cr);
    EnabledIs(mask, DisabledCr(mask, cr));
    SetAfterClear(cr, mask);
  }

  /** Enable then disable restores CR exactly when all seven enable bits were clear before. */
  lemma EnableThenDisableRestores(mask: bv32, cr: bv32)
    ensures DisabledCr(mask, EnabledCr(mask, cr)) == cr <==> cr & mask == 0
  {
    DisableAfterEnable(mask, cr);
    DisabledIs(mask, cr);
    if cr & mask == 0 {
      ClearNothing(cr, mask);
    } else {
      ClearSomething(cr, mask);
    }
  }

  /** Disable then enable restores CR exactly when all seven enable bits were set before. */
  lemma DisableThenEnableRestores(mask: bv32, cr: bv32)
    ensures EnabledCr(mask, DisabledCr(mask, cr)) == cr <==> cr & mask == mask
  {
    EnableAfterDisable(mask, cr);
    EnabledIs(mask, cr);
    if cr & mask == mask {
      SetNothing(cr, mask);
    } else {
      SetSomething(cr, mask);
    }
  }
}
