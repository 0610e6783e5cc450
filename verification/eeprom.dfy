/**
 * `EFC_EEPROMWrite`: erase the word at the address, check that it reads
 * back as all ones, program the new value with `EFC_SingleProgram`, and
 * report whether the value read back at the store's width matches.
 *
 * Every value the driver reads from the controller or from the cell is a
 * field of `EepromEnv`.
 */
module EfcEeprom {
  import opened EfcRegisters
  import opened EfcOperations

  /** The values the driver reads during one call. */
  datatype EepromEnv = EepromEnv(
    eraseStsRead: bv32,   // status register read at the start of the erase
    eraseStsFinal: bv32,  // status register read after the erase's busy-wait
    erasedWord: bv32,     // 32-bit load from the address after the erase
    progStsRead: bv32,    // status register read at the start of the program
    progStsFinal: bv32,   // status register read after the program's busy-wait
    loaded: bv32          // load from the address, at the store's width, after the program
  )

  /** How the call ends: it returns TRUE or FALSE, or the program's parameter check stops it. */
  datatype WriteOutcome = Returned(ok: bool) | Aborted

  datatype EepromRun = EepromRun(outcome: WriteOutcome, trace: seq<Event>)

  /** Whether the erase reported success and the word then read back as all ones. */
  predicate EraseVerified(m: RegisterMap, env: EepromEnv) {
    env.eraseStsFinal == m.stsCd && env.erasedWord == 0xffff_ffff
  }

  /**
   * EFC_EEPROMWrite(addr, iPrgType, data). It returns TRUE exactly when the
   * erase verified, the address passes the program's parameter check, and
   * the value loaded back at the store's width equals `data` narrowed to
   * that width. The program's own result plays no part. No program is
   * attempted unless the erase verified.
   */
  function EepromWrite(m: RegisterMap, addr: bv32, code: bv32, data: bv32, env: EepromEnv): (r: EepromRun)
    ensures var w := WidthOf(m, code);
      && (r.outcome == Returned(true) <==>
            EraseVerified(m, env) && Aligned(addr, w) && Narrow(env.loaded, w) == Narrow(data, w))
      && (r.outcome == Aborted <==> EraseVerified(m, env) && !Aligned(addr, w))
      && CellLog(r.trace) == [CellWrite(addr, Word, 0xffff_ffff)]
           + (if EraseVerified(m, env) && Aligned(addr, w) then [CellWrite(addr, w, Narrow(data, w))] else [])
    ensures OprLog(r.trace) == OpenMode(PageEraseMode) + (if EraseVerified(m, env) then OpenMode(SigPrgMode) else [])
    ensures Unprotected(r.trace)
    ensures !EraseVerified(m, env) ==> r.trace == PageErase(m, addr, env.eraseStsRead, env.eraseStsFinal).trace
    ensures EraseVerified(m, env) ==>
      r.trace == PageErase(m, addr, env.eraseStsRead, env.eraseStsFinal).trace
               + SingleProgram(m, addr, code, data, env.progStsRead, env.progStsFinal).trace
  {
    var erase := PageErase(m, addr, env.eraseStsRead, env.eraseStsFinal);
    if erase.outcome != Completed(Success) || env.erasedWord != 0xffff_ffff then
      EepromRun(Returned(false), erase.trace)
    else
      var w := WidthOf(m, code);
      var prog := SingleProgram(m, addr, code, data, env.progStsRead, env.progStsFinal);
      EraseThenProgram(erase.trace, prog.trace);
      EepromRun(if prog.outcome == ParamCheckAbort then Aborted
                else Returned(Narrow(env.loaded, w) == Narrow(data, w)),
                erase.trace + prog.trace)
  }

  /** The logs of an erase followed by a program, and that neither touches the protected registers. */
  lemma EraseThenProgram(erase: seq<Event>, prog: seq<Event>)
    requires Unprotected(erase) && Unprotected(prog)
    ensures OprLog(erase + prog) == OprLog(erase) + OprLog(prog)
    ensures CellLog(erase + prog) == CellLog(erase) + CellLog(prog)
    ensures Unprotected(erase + prog)
  {
    LogsAppend(erase, prog);
    var t := erase + prog;
    forall i | 0 <= i < |t|
      ensures !t[i].Unlock? && !t[i].CtrlWrite?
    {
      if i < |erase| {
        assert t[i] == erase[i];
      } else {
        assert t[i] == prog[i - |erase|];
      }
    }
  }

  /**
   * The status the program reports is never consulted: two calls that differ
   * only in the program's status reads end the same way. (Their traces may
   * differ, but only in the value of the program's status write-back.)
   */
  lemma ProgramStatusIgnored(m: RegisterMap, addr: bv32, code: bv32, data: bv32, env: EepromEnv,
                             progStsRead: bv32, progStsFinal: bv32)
    ensures var other := env.(progStsRead := progStsRead, progStsFinal := progStsFinal);
      EepromWrite(m, addr, code, data, other).outcome == EepromWrite(m, addr, code, data, env).outcome
  {
  }

  /**
   * So a program whose final status is nonzero but not the success code
   * (it reports failure) still yields TRUE when the cell reads back the data.
   */
  lemma FailedProgramCanReturnTrue(m: RegisterMap, addr: bv32, data: bv32)
    requires m.stsCd != 1
    ensures var env := EepromEnv(m.stsCd, m.stsCd, 0xffff_ffff, 0, 1, data);
      && SingleProgram(m, addr & !3, 0, data, 0, 1).outcome == Completed(Failure(SingPrgFail))
      && EepromWrite(m, addr & !3, 0, data, env).outcome == Returned(true)
  {
    var a := addr & !3;
    assert a & 0x03 == 0;
  }

  /** An erase that fails ends the call with FALSE after the erase alone. */
  lemma FailedEraseStops(m: RegisterMap, addr: bv32, code: bv32, data: bv32, env: EepromEnv)
    requires env.eraseStsFinal != m.stsCd
    ensures var r := EepromWrite(m, addr, code, data, env);
      && r.outcome == Returned(false)
      && r.trace == PageErase(m, addr, env.eraseStsRead, env.eraseStsFinal).trace
  {
  }

  /**
   * A fresh word: the erase succeeds and reads back all ones, the word is
   * programmed with 0xDEADBEEF at an aligned address and loads back
   * unchanged, so the call returns TRUE after two mode-opens and two cell
   * stores.
   */
  lemma FreshWordWrite(m: RegisterMap)
    requires m.prgByte != 0x2 && m.prgHword != 0x2
    ensures var env := EepromEnv(0, m.stsCd, 0xffff_ffff, 0, m.stsCd, 0xdead_beef);
      var r := EepromWrite(m, 0x1000, 0x2, 0xdead_beef, env);
      && r.outcome == Returned(true)
      && |r.trace| == 14
      && CellLog(r.trace) == [CellWrite(0x1000, Word, 0xffff_ffff), CellWrite(0x1000, Word, 0xdead_beef)]
  {
  }
}
