/**
 * The flash program and erase primitives `EFC_SingleProgram`,
 * `EFC_PageErase` and `EFC_ChipErase`, and the mode-open sequence they share.
 *
 * Each primitive clears the status register by writing back the value it
 * just read, opens its operation mode, stores to the target cell, waits for
 * the status register to become nonzero, and compares the status with the
 * success code. The status values the driver reads are oracle parameters:
 * `stsRead` is the value read before the write-back, `stsFinal` the value
 * read after the busy-wait has ended. The busy-wait itself is the `Poll`
 * event; it has no timeout in the driver, so it is not modelled as a loop.
 */
module EfcOperations {
  import opened EfcRegisters

  /** Failure codes of the primitives (the nonzero values of eReturnType). */
  datatype FailCode = SingPrgFail | PageEraseFail | ChipEraseFail

  /** eReturnType: EFC_SUCCESS or a failure code. */
  datatype EfcResult = Success | Failure(code: FailCode)

  /** How a primitive ends: it returns a result, or a PARAM_CHECK stops it. */
  datatype Outcome = Completed(result: EfcResult) | ParamCheckAbort

  /** The outcome of one primitive together with the events it issued. */
  datatype Run = Run(outcome: Outcome, trace: seq<Event>)

  function PhaseIndex(p: Phase): nat {
    match p
    case V0 => 0
    case V1 => 1
    case V2 => 2
    case V3 => 3
  }

  /** The mode-open sequence EFC_OPR_OPEN(mode). */
  function OpenMode(mode: OprMode): (t: seq<Event>)
    ensures |t| == 4
    ensures forall i | 0 <= i < 4 :: t[i].OprWrite? && PhaseIndex(t[i].phase) == i && t[i].mode == mode
  {
    [OprWrite(V0, mode), OprWrite(V1, mode), OprWrite(V2, mode), OprWrite(V3, mode)]
  }

  /**
   * The width a width code selects: EFC_PRG_BYTE and EFC_PRG_HWORD select
   * byte and half-word; every other code falls through to a word store.
   */
  function WidthOf(m: RegisterMap, code: bv32): (w: Width)
    ensures w == Byte <==> code == m.prgByte
    ensures w == HalfWord <==> code != m.prgByte && code == m.prgHword
  {
    if code == m.prgByte then Byte
    else if code == m.prgHword then HalfWord
    else Word
  }

  /**
   * Whether `addr` passes the PARAM_CHECK for width `w`: no check for a
   * byte, bit 0 clear for a half-word, bits 0 and 1 clear otherwise. This is
   * exactly natural alignment of the address to the store width.
   */
  function Aligned(addr: bv32, w: Width): (b: bool)
    ensures w == Byte ==> b
    ensures w == HalfWord ==> (b <==> addr % 2 == 0)
    ensures w == Word ==> (b <==> addr % 4 == 0)
  {
    match w
    case Byte => true
    case HalfWord => addr & 0x01 == 0
    case Word => addr & 0x03 == 0
  }

  /**
   * The value a store or load of width `w` carries: the low byte, the low
   * half-word or the whole word of `v`.
   */
  function Narrow(v: bv32, w: Width): (r: bv32)
    ensures w == Byte ==> r == v % 0x100
    ensures w == HalfWord ==> r == v % 0x1_0000
    ensures w == Word ==> r == v
  {
    match w
    case Byte => v & 0xff
    case HalfWord => v & 0xffff
    case Word => v
  }

  /** Neither the status write-back nor the mode-open stores to a cell; the mode-open logs itself. */
  lemma {:induction false} OpenModeLogs(sts: bv32, mode: OprMode)
    ensures OprLog([StatusWrite(sts)] + OpenMode(mode)) == OpenMode(mode)
    ensures CellLog([StatusWrite(sts)] + OpenMode(mode)) == []
  {
    var t := [StatusWrite(sts)] + OpenMode(mode);
    assert t[1..] == OpenMode(mode);
    var o := OpenMode(mode);
    assert o[1..][1..][1..][1..] == [];
    assert OprLog(o[1..][1..][1..]) == [o[3]];
    assert OprLog(o[1..][1..]) == [o[2], o[3]];
    assert OprLog(o[1..]) == [o[1], o[2], o[3]];
    assert CellLog(o[1..][1..][1..]) == [];
    assert CellLog(o[1..][1..]) == [];
    assert CellLog(o[1..]) == [];
  }

  /**
   * The shape all three primitives share: write back the status read, open
   * `mode`, then either stop on a failed parameter check or store `target`,
   * poll, and succeed exactly when the final status is the success code.
   */
  function Operate(m: RegisterMap, mode: OprMode, stsRead: bv32, paramOk: bool, target: Event,
                   stsFinal: bv32, fail: FailCode): (r: Run)
    requires target.CellWrite?
    ensures |r.trace| == if paramOk then 7 else 5
    ensures r.trace[0] == StatusWrite(stsRead)
    ensures OprLog(r.trace) == OpenMode(mode)
    ensures forall i | 0 <= i < |r.trace| && r.trace[i].CellWrite? :: OprLog(r.trace[..i]) == OpenMode(mode)
    ensures CellLog(r.trace) == (if paramOk then [target] else [])
    ensures paramOk ==> r.trace[5] == target && r.trace[6] == Poll
    ensures Poll in r.trace <==> paramOk
    ensures Unprotected(r.trace)
    ensures r.outcome == ParamCheckAbort <==> !paramOk
    ensures r.outcome == Completed(Success) <==> paramOk && stsFinal == m.stsCd
    ensures r.outcome == Completed(Failure(fail)) <==> paramOk && stsFinal != m.stsCd
  {
    var head := [StatusWrite(stsRead)] + OpenMode(mode);
    var tail := if paramOk then [target, Poll] else [];
    OpenThenStore(stsRead, mode, tail);
    assert (head + tail)[0] == StatusWrite(stsRead);
    Run(if !paramOk then ParamCheckAbort
        else Completed(if stsFinal == m.stsCd then Success else Failure(fail)),
        head + tail)
  }

  /** What the status write-back and mode-open contribute to a primitive's trace. */
  lemma OpenThenStore(sts: bv32, mode: OprMode, tail: seq<Event>)
    requires tail == [] || (|tail| == 2 && tail[0].CellWrite? && tail[1] == Poll)
    ensures var t := [StatusWrite(sts)] + OpenMode(mode) + tail;
      && OprLog(t) == OpenMode(mode)
      && CellLog(t) == (if tail == [] then [] else [tail[0]])
      && OprLog(t[..5]) == OpenMode(mode)
      && (forall i | 0 <= i < |t| && t[i].CellWrite? :: i == 5)
      && Unprotected(t)
      && (Poll in t <==> tail != [])
  {
    var head := [StatusWrite(sts)] + OpenMode(mode);
    OpenModeLogs(sts, mode);
    StoreThenPollLogs(tail);
    LogsAppend(head, tail);
    var t := head + tail;
    assert t[..5] == head;
    forall i | 0 <= i < |t|
      ensures !t[i].Unlock? && !t[i].CtrlWrite? && (t[i].CellWrite? ==> i == 5) && (t[i] == Poll ==> i == 6)
    {
      if i < 5 {
        assert t[i] == head[i];
      } else {
        assert t[i] == tail[i - 5];
      }
    }
    if tail != [] {
      assert t[6] == Poll;
    }
  }

  /** The store-and-poll tail of a primitive logs its one cell store and no mode store. */
  lemma StoreThenPollLogs(tail: seq<Event>)
    requires tail == [] || (|tail| == 2 && tail[0].CellWrite? && tail[1] == Poll)
    ensures OprLog(tail) == []
    ensures CellLog(tail) == (if tail == [] then [] else [tail[0]])
  {
    if tail != [] {
      assert tail[1..] == [Poll];
      assert tail[1..][1..] == [];
    }
  }

  /** EFC_SingleProgram(Addr, iPrgType, Data). */
  function SingleProgram(m: RegisterMap, addr: bv32, code: bv32, data: bv32,
                         stsRead: bv32, stsFinal: bv32): (r: Run)
    ensures var w := WidthOf(m, code);
      && (r.outcome == ParamCheckAbort <==> !Aligned(addr, w))
      && (r.outcome == Completed(Success) <==> Aligned(addr, w) && stsFinal == m.stsCd)
      && (r.outcome == Completed(Failure(SingPrgFail)) <==> Aligned(addr, w) && stsFinal != m.stsCd)
      && CellLog(r.trace) == (if Aligned(addr, w) then [CellWrite(addr, w, Narrow(data, w))] else [])
    ensures |r.trace| == if r.outcome.Completed? then 7 else 5
    ensures r.trace[0] == StatusWrite(stsRead)
    ensures OprLog(r.trace) == OpenMode(SigPrgMode)
    ensures forall i | 0 <= i < |r.trace| && r.trace[i].CellWrite? :: OprLog(r.trace[..i]) == OpenMode(SigPrgMode)
    ensures Poll in r.trace <==> r.outcome.Completed?
    ensures r.outcome.Completed? ==>
      r.trace[5] == CellWrite(addr, WidthOf(m, code), Narrow(data, WidthOf(m, code))) && r.trace[6] == Poll
    ensures Unprotected(r.trace)
  {
    var w := WidthOf(m, code);
    Operate(m, SigPrgMode, stsRead, Aligned(addr, w), CellWrite(addr, w, Narrow(data, w)), stsFinal, SingPrgFail)
  }

  /** EFC_PageErase(u32Addr): a word of all ones stored to the target opens the erase. */
  function PageErase(m: RegisterMap, addr: bv32, stsRead: bv32, stsFinal: bv32): (r: Run)
    ensures r.outcome == Completed(Success) <==> stsFinal == m.stsCd
    ensures r.outcome == Completed(Failure(PageEraseFail)) <==> stsFinal != m.stsCd
    ensures CellLog(r.trace) == [CellWrite(addr, Word, 0xffff_ffff)]
    ensures |r.trace| == 7
    ensures r.trace[0] == StatusWrite(stsRead)
    ensures OprLog(r.trace) == OpenMode(PageEraseMode)
    ensures forall i | 0 <= i < |r.trace| && r.trace[i].CellWrite? :: OprLog(r.trace[..i]) == OpenMode(PageEraseMode)
    ensures r.trace[5] == CellWrite(addr, Word, 0xffff_ffff) && r.trace[6] == Poll
    ensures Unprotected(r.trace)
  {
    Operate(m, PageEraseMode, stsRead, true, CellWrite(addr, Word, 0xffff_ffff), stsFinal, PageEraseFail)
  }

  /** EFC_ChipErase(u32Addr): as `PageErase`, in chip-erase mode. */
  function ChipErase(m: RegisterMap, addr: bv32, stsRead: bv32, stsFinal: bv32): (r: Run)
    ensures r.outcome == Completed(Success) <==> stsFinal == m.stsCd
    ensures r.outcome == Completed(Failure(ChipEraseFail)) <==> stsFinal != m.stsCd
    ensures CellLog(r.trace) == [CellWrite(addr, Word, 0xffff_ffff)]
    ensures |r.trace| == 7
    ensures r.trace[0] == StatusWrite(stsRead)
    ensures OprLog(r.trace) == OpenMode(ChipEraseMode)
    ensures forall i | 0 <= i < |r.trace| && r.trace[i].CellWrite? :: OprLog(r.trace[..i]) == OpenMode(ChipEraseMode)
    ensures r.trace[5] == CellWrite(addr, Word, 0xffff_ffff) && r.trace[6] == Poll
    ensures Unprotected(r.trace)
  {
    Operate(m, ChipEraseMode, stsRead, true, CellWrite(addr, Word, 0xffff_ffff), stsFinal, ChipEraseFail)
  }

  /** A byte store is never stopped by the parameter check, whatever the address. */
  lemma ByteNeverAborts(m: RegisterMap, addr: bv32, data: bv32, stsRead: bv32, stsFinal: bv32)
    ensures SingleProgram(m, addr, m.prgByte, data, stsRead, stsFinal).outcome.Completed?
  {
  }

  /**
   * A half-word store to an odd address is stopped by the parameter check
   * after the status write-back and the mode-open, before any cell store.
   */
  lemma OddHalfWordAborts(m: RegisterMap, addr: bv32, data: bv32, stsRead: bv32, stsFinal: bv32)
    requires m.prgHword != m.prgByte
    requires addr % 2 == 1
    ensures var r := SingleProgram(m, addr, m.prgHword, data, stsRead, stsFinal);
      && r.outcome == ParamCheckAbort
      && r.trace == [StatusWrite(stsRead)] + OpenMode(SigPrgMode)
  {
  }
}
