/**
 * Register-level vocabulary of the embedded flash controller (EFC) driver:
 * the numeric register-map constants the driver uses, the events one driver
 * call emits (unlocks, register stores, cell stores, status polls), and a
 * small semantics that replays protected register stores on the control and
 * timing registers.
 *
 * The register-map header (efc.h) is not part of this model, so every
 * numeric constant it defines is a field of `RegisterMap` and every property
 * below holds for all of their values.
 */
module EfcRegisters {

  /** The numeric constants of the register map that the driver reads or combines. */
  datatype RegisterMap = RegisterMap(
    prg2mDiv: bv32,    // EFC_CR_PRG2MDIV: program clock divider field of CR
    ers2kDiv: bv32,    // EFC_CR_ERS2KDIV: erase clock divider field of CR
    lvdWarnEn: bv32,   // EFC_CR_LVDWARNEN
    atdeIntEn: bv32,   // EFC_CR_ATDEINTEN
    atteIntEn: bv32,   // EFC_CR_ATTEINTEN
    ftteIntEn: bv32,   // EFC_CR_FTTEINTEN
    addreIntEn: bv32,  // EFC_CR_ADDREINTEN
    fcIntEn: bv32,     // EFC_CR_FCINTEN
    cdIntEn: bv32,     // EFC_CR_CDINTEN
    stsCd: bv32,       // EFC_STS_CD: status value of a successful completion
    prgByte: bv32,     // EFC_PRG_BYTE width code
    prgHword: bv32     // EFC_PRG_HWORD width code
  )

  /** The two clock-divider fields that `EFC_Init` clears before setting them. */
  function DividerMask(m: RegisterMap): bv32 {
    m.prg2mDiv | m.ers2kDiv
  }

  /** The seven interrupt-enable bits toggled by `EFC_EnableIRQ` / `EFC_DisableIRQ`. */
  function IrqMask(m: RegisterMap): bv32 {
    m.lvdWarnEn | m.atdeIntEn | m.atteIntEn | m.ftteIntEn | m.addreIntEn | m.fcIntEn | m.cdIntEn
  }

  /** The read-modify-write `reg &= ~mask`. */
  function ClearBits(v: bv32, mask: bv32): bv32 {
    v & !mask
  }

  /** The read-modify-write `reg |= bits`. */
  function SetBits(v: bv32, bits: bv32): bv32 {
    v | bits
  }

  /** The write-protected registers: control register and the five timing registers. */
  datatype CtrlReg = CR | TNVS | TPROG | TPGS | TRCV | TERS

  /** The four pass-phase markers EFC_OPR_PPRF_V0 .. V3 of the mode-open sequence. */
  datatype Phase = V0 | V1 | V2 | V3

  /** The operation modes EFC_OPR_OPRMODE_SIG_PRG, _PAGE_ERASE and _CHIP_ERASE. */
  datatype OprMode = SigPrgMode | PageEraseMode | ChipEraseMode

  /** Access width of a flash or EEPROM cell store or load. */
  datatype Width = Byte | HalfWord | Word

  /** One store to a write-protected register. */
  datatype RegWrite = RegWrite(reg: CtrlReg, value: bv32)

  /** What a driver call does to the controller, in program order. */
  datatype Event =
    | Unlock                                          // EFC_WPT_UNLOCK(): the key sequence, contents opaque
    | CtrlWrite(write: RegWrite)                      // store to CR or a timing register
    | StatusWrite(status: bv32)                       // store to the status register
    | OprWrite(phase: Phase, mode: OprMode)           // store of EFC_OPR_PPRF_<phase> | <mode> to OPR
    | CellWrite(addr: bv32, width: Width, data: bv32) // 8-, 16- or 32-bit store to a flash or EEPROM cell
    | Poll                                            // busy-wait until the status register is nonzero

  /** A trace that never touches the write-protection machinery. */
  predicate Unprotected(t: seq<Event>) {
    forall i | 0 <= i < |t| :: !t[i].Unlock? && !t[i].CtrlWrite?
  }

  /**
   * The write-protection discipline: every protected store comes right after
   * an unlock, and every unlock is consumed by the very next event, which is
   * a protected store. So unlocks and protected stores pair up one to one.
   */
  predicate UnlockGuarded(t: seq<Event>) {
    && (forall i | 0 <= i < |t| && t[i].CtrlWrite? :: 0 < i && t[i - 1] == Unlock)
    && (forall i | 0 <= i < |t| && t[i] == Unlock :: i + 1 < |t| && t[i + 1].CtrlWrite?)
  }

  /** The stores to the operation-mode register, in order. */
  function OprLog(t: seq<Event>): seq<Event> {
    if |t| == 0 then [] else (if t[0].OprWrite? then [t[0]] else []) + OprLog(t[1..])
  }

  /** The stores to flash or EEPROM cells, in order. */
  function CellLog(t: seq<Event>): seq<Event> {
    if |t| == 0 then [] else (if t[0].CellWrite? then [t[0]] else []) + CellLog(t[1..])
  }

  /** The protected stores, in order. */
  function WriteLog(t: seq<Event>): seq<RegWrite> {
    if |t| == 0 then [] else (if t[0].CtrlWrite? then [t[0].write] else []) + WriteLog(t[1..])
  }

  /** The logs of a concatenation are the concatenations of the logs. */
  lemma LogsAppend(a: seq<Event>, b: seq<Event>)
    ensures OprLog(a + b) == OprLog(a) + OprLog(b)
    ensures CellLog(a + b) == CellLog(a) + CellLog(b)
    ensures WriteLog(a + b) == WriteLog(a) + WriteLog(b)
  {
    OprLogAppend(a, b);
    CellLogAppend(a, b);
    WriteLogAppend(a, b);
  }

  lemma {:induction false} OprLogAppend(a: seq<Event>, b: seq<Event>)
    ensures OprLog(a + b) == OprLog(a) + OprLog(b)
    decreases |a|
  {
    if |a| == 0 {
      assert a + b == b;
    } else {
      var h := if a[0].OprWrite? then [a[0]] else [];
      calc {
        OprLog(a + b);
        { assert (a + b)[0] == a[0]; }
        h + OprLog((a + b)[1..]);
        { assert (a + b)[1..] == a[1..] + b; OprLogAppend(a[1..], b); }
        h + (OprLog(a[1..]) + OprLog(b));
        (h + OprLog(a[1..])) + OprLog(b);
      }
    }
  }

  lemma {:induction false} CellLogAppend(a: seq<Event>, b: seq<Event>)
    ensures CellLog(a + b) == CellLog(a) + CellLog(b)
    decreases |a|
  {
    if |a| == 0 {
      assert a + b == b;
    } else {
      var h := if a[0].CellWrite? then [a[0]] else [];
      calc {
        CellLog(a + b);
        { assert (a + b)[0] == a[0]; }
        h + CellLog((a + b)[1..]);
        { assert (a + b)[1..] == a[1..] + b; CellLogAppend(a[1..], b); }
        h + (CellLog(a[1..]) + CellLog(b));
        (h + CellLog(a[1..])) + CellLog(b);
      }
    }
  }

  lemma {:induction false} WriteLogAppend(a: seq<Event>, b: seq<Event>)
    ensures WriteLog(a + b) == WriteLog(a) + WriteLog(b)
    decreases |a|
  {
    if |a| == 0 {
      assert a + b == b;
    } else {
      var h := if a[0].CtrlWrite? then [a[0].write] else [];
      calc {
        WriteLog(a + b);
        { assert (a + b)[0] == a[0]; }
        h + WriteLog((a + b)[1..]);
        { assert (a + b)[1..] == a[1..] + b; WriteLogAppend(a[1..], b); }
        h + (WriteLog(a[1..]) + WriteLog(b));
        (h + WriteLog(a[1..])) + WriteLog(b);
      }
    }
  }

  /** The registers targeted by a list of protected stores. */
  function Targets(ws: seq<RegWrite>): seq<CtrlReg> {
    if |ws| == 0 then [] else [ws[0].reg] + Targets(ws[1..])
  }

  /** Each store as the driver issues it: one unlock, then the store itself. */
  function ProtectedWrites(ws: seq<RegWrite>): seq<Event> {
    if |ws| == 0 then [] else [Unlock, CtrlWrite(ws[0])] + ProtectedWrites(ws[1..])
  }

  /**
   * The protected form of a list of stores alternates unlock / store, so it
   * keeps the write-protection discipline, and the stores it logs are
   * exactly `ws`.
   */
  lemma {:induction false} ProtectedWritesShape(ws: seq<RegWrite>)
    ensures |ProtectedWrites(ws)| == 2 * |ws|
    ensures UnlockGuarded(ProtectedWrites(ws))
    ensures WriteLog(ProtectedWrites(ws)) == ws
    decreases |ws|
  {
    if |ws| > 0 {
      var rest := ProtectedWrites(ws[1..]);
      ProtectedWritesShape(ws[1..]);
      GuardedPrepend(ws[0], rest);
      var t := [Unlock, CtrlWrite(ws[0])] + rest;
      assert t[1..] == [CtrlWrite(ws[0])] + rest;
      assert t[1..][1..] == rest;
      assert ws == [ws[0]] + ws[1..];
    }
  }

  /** Putting one unlock / store pair in front of a guarded trace keeps it guarded. */
  lemma GuardedPrepend(w: RegWrite, rest: seq<Event>)
    requires UnlockGuarded(rest)
    ensures UnlockGuarded([Unlock, CtrlWrite(w)] + rest)
  {
    var t := [Unlock, CtrlWrite(w)] + rest;
    forall i | 2 <= i < |t|
      ensures t[i] == rest[i - 2]
    {
    }
  }

  /** Contents of the write-protected registers. */
  datatype CtrlFile = CtrlFile(cr: bv32, tnvs: bv32, tprog: bv32, tpgs: bv32, trcv: bv32, ters: bv32)

  /** The register file after one store. */
  function Store(f: CtrlFile, w: RegWrite): CtrlFile {
    match w.reg
    case CR => f.(cr := w.value)
    case TNVS => f.(tnvs := w.value)
    case TPROG => f.(tprog := w.value)
    case TPGS => f.(tpgs := w.value)
    case TRCV => f.(trcv := w.value)
    case TERS => f.(ters := w.value)
  }

  /** The effect of a trace on the protected registers: only protected stores change them. */
  function Replay(f: CtrlFile, t: seq<Event>): CtrlFile
    decreases |t|
  {
    if |t| == 0 then f
    else Replay(if t[0].CtrlWrite? then Store(f, t[0].write) else f, t[1..])
  }

  /** A trace without protected stores leaves the whole register file as it was. */
  lemma {:induction false} UnprotectedKeepsRegisters(f: CtrlFile, t: seq<Event>)
    requires Unprotected(t)
    ensures Replay(f, t) == f
    decreases |t|
  {
    if |t| > 0 {
      assert !t[0].CtrlWrite?;
      assert Unprotected(t[1..]) by {
        forall i | 0 <= i < |t[1..]|
          ensures !t[1..][i].Unlock? && !t[1..][i].CtrlWrite?
        {
          assert t[1..][i] == t[i + 1];
        }
      }
      UnprotectedKeepsRegisters(f, t[1..]);
    }
  }

  /** The register file after a list of stores, applied first to last. */
  function StoreAll(f: CtrlFile, ws: seq<RegWrite>): CtrlFile
    decreases |ws|
  {
    if |ws| == 0 then f else StoreAll(Store(f, ws[0]), ws[1..])
  }

  /** Replaying the protected form of a list of stores applies the stores in order. */
  lemma {:induction false} ReplayProtectedWrites(f: CtrlFile, ws: seq<RegWrite>)
    ensures Replay(f, ProtectedWrites(ws)) == StoreAll(f, ws)
    decreases |ws|
  {
    if |ws| > 0 {
      var rest := ProtectedWrites(ws[1..]);
      var t := [Unlock, CtrlWrite(ws[0])] + rest;
      assert t[1..] == [CtrlWrite(ws[0])] + rest;
      assert t[1..][1..] == rest;
      assert Replay(f, t) == Replay(Store(f, ws[0]), rest);
      ReplayProtectedWrites(Store(f, ws[0]), ws[1..]);
    }
  }
}
