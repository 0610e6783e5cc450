# Embedded flash controller driver (efc.c) in Dafny

This project models the flash controller (EFC) driver of the FDV32S305
microcontroller: `EFC_Init`, the mode-open macro `EFC_OPR_OPEN`, the three
primitives `EFC_SingleProgram`, `EFC_PageErase` and `EFC_ChipErase`, the
composite `EFC_EEPROMWrite`, and the interrupt toggles `EFC_EnableIRQ` and
`EFC_DisableIRQ`.

Each driver call is a pure function. It returns what the C function returns
together with the trace of events it issues:

- unlocks;
- stores to the write-protected registers (CR and the five timing registers);
- status write-backs;
- stores to the operation-mode register (OPR);
- stores to flash or EEPROM cells;
- busy-wait polls.

A replay semantics (`EfcRegisters.Replay`) gives the effect of a trace on the
protected registers. Every value the driver reads from the hardware is a
parameter: the core clock, the status register and the cells read back.

The register-map header efc.h is not part of this model. The numeric
constants it defines are fields of `EfcRegisters.RegisterMap`, and every
property holds for all of their values. All register arithmetic is on `bv32`,
so the driver's 32-bit unsigned wrap-around is part of the model.

Modules:

- `EfcRegisters` (registers.dfy): the register map, the events, the trace logs, the write-protection discipline, and the replay of protected stores.
- `EfcOperations` (operations.dfy): `EFC_OPR_OPEN`, the width and alignment rules, and the three primitives.
- `EfcInit` (init.dfy): the clock-band table and `EFC_Init`.
- `EfcEeprom` (eeprom.dfy): `EFC_EEPROMWrite`.
- `EfcIrq` (irq.dfy): `EFC_EnableIRQ` and `EFC_DisableIRQ`.

Modelling notes:

- For 1 MHz < f < 2 MHz the general band computes `f / 2000000 - 1`. The quotient is 0, so the subtraction wraps to 0xFFFFFFFF and CR receives all ones in bits 16..31. The model keeps this behaviour and shows it in `EfcInit.GeneralBandWrapsBelowTwoMHz`; it does not exclude those clocks. This is not listed as a finding, because the intended value for this range is not evident from the code.
- In C, `0x3e7 << 22` is a signed `int` shift whose result exceeds `INT_MAX`. The model takes the 32-bit value 0xF9C00000 that the driver evidently relies on.
- The primitives compare a second, fresh read of the status register with the success code (efc.c:119, 142, 165). That value is an unconstrained parameter (`stsFinal`). It is not assumed to be the nonzero value that ended the busy-wait, because the code reads the register again.
- `EFC_EEPROMWrite` passes its `u32` width code to the `int` parameter of `EFC_SingleProgram`. The model treats the code as one `bv32` in both places, so the width chosen by the program and by the readback is the same.
- `PARAM_CHECK` is defined in efc.h, which is not part of this model. The model assumes that a failed check ends the whole driver call, as an assertion or halt would. Under that assumption the primitive's outcome is `ParamCheckAbort`, and `EFC_EEPROMWrite` ends with `Aborted`.

## Model

| member | source | states |
|---|---|---|
| EfcRegisters.ProtectedWritesShape | phoenix05_with_shell/FDV32S305/drivers/efc.c:72-85 | Issuing each protected store right after its own unlock yields a trace twice as long as the list of stores. Every store in it is preceded by an unlock, and every unlock is followed by a store. The stores it logs are exactly the list, in order. |
| EfcRegisters.ReplayProtectedWrites | phoenix05_with_shell/FDV32S305/drivers/efc.c:36-50 | Replaying the unlock/store pairs on the protected registers applies the stores one after another, first to last. |
| EfcRegisters.UnprotectedKeepsRegisters | phoenix05_with_shell/FDV32S305/drivers/efc.c:134-147 | A trace with no unlock and no protected store leaves CR and every timing register as they were. |
| EfcOperations.OpenMode | phoenix05_with_shell/FDV32S305/drivers/efc.c:14-20 | The mode-open is exactly four OPR stores, with phases V0, V1, V2, V3 in that order, all with the same mode. |
| EfcOperations.WidthOf | phoenix05_with_shell/FDV32S305/drivers/efc.c:103-116 | The width code selects a byte exactly when it is EFC_PRG_BYTE. It selects a half-word exactly when it is EFC_PRG_HWORD and not EFC_PRG_BYTE. Every other code selects a word. |
| EfcOperations.Aligned | phoenix05_with_shell/FDV32S305/drivers/efc.c:107-116 | The parameter check passes always for a byte, iff the address is even for a half-word, and iff the address is a multiple of 4 for a word. |
| EfcOperations.Narrow | phoenix05_with_shell/FDV32S305/drivers/efc.c:190-204 | A byte or half-word store or load carries the data modulo 2^8 or 2^16; a word carries all of it. |
| EfcOperations.Operate | phoenix05_with_shell/FDV32S305/drivers/efc.c:136-146 | The common shape of the primitives. First the status write-back of the value read, then the four mode-open stores, then either a stop on a failed parameter check (5 events, no cell store, no poll) or the cell store at position 5 followed by the poll at position 6 (7 events). Every cell store comes after the whole mode-open. The result is success iff the final status equals the success code, otherwise the primitive's own failure code. No protected register is touched. |
| EfcOperations.SingleProgram | phoenix05_with_shell/FDV32S305/drivers/efc.c:98-124 | The program stops on the parameter check iff the address is not aligned to the selected width. Otherwise it stores the data, narrowed to that width, once in single-program mode. It succeeds iff the final status is the success code, and otherwise fails with SING_PRG_FAIL. It polls iff it does not stop, and then the store is event 5 and the poll event 6, right after it. |
| EfcOperations.PageErase | phoenix05_with_shell/FDV32S305/drivers/efc.c:134-147 | The page erase opens page-erase mode and stores one word of all ones at the address, then polls. It succeeds iff the final status is the success code, and otherwise fails with PAGE_ERASE_FAIL. |
| EfcOperations.ChipErase | phoenix05_with_shell/FDV32S305/drivers/efc.c:156-170 | The chip erase opens chip-erase mode and stores one word of all ones at the address, then polls. It succeeds iff the final status is the success code, and otherwise fails with CHIP_ERASE_FAIL. |
| EfcOperations.ByteNeverAborts | phoenix05_with_shell/FDV32S305/drivers/efc.c:103-106 | A byte program is never stopped by the parameter check, at any address. |
| EfcOperations.OddHalfWordAborts | phoenix05_with_shell/FDV32S305/drivers/efc.c:107-111 | A half-word program to an odd address stops after the status write-back and the mode-open, before any cell store. |
| EfcInit.ClockTiming | phoenix05_with_shell/FDV32S305/drivers/efc.c:30-86 | The band table has no timing below 1 MHz. At exactly 1 MHz and exactly 2 MHz it gives the literal CR bits and timing values (0x03/0x03/0x01 and 0x06/0x06/0x04 for TNVS/TPROG/TPGS). Every other clock gets the computed divider with 0x0e, 0x0e, 0x0c, 0xcf1e0 and 0x4c6. Every band's CR value has bits 0..15 clear, and every band sets TERS to 0x4c6. |
| EfcInit.GeneralDividerRange | phoenix05_with_shell/FDV32S305/drivers/efc.c:75 | From 2 MHz up the divider is the quotient minus one, with no wrap. Below 2 MHz it wraps to 0xFFFFFFFF. |
| EfcInit.DividerPlacement | phoenix05_with_shell/FDV32S305/drivers/efc.c:75 | In the general band's CR value, bits 0..15 are clear and bits 16..21 hold the divider's low six bits. Bits 22..31 hold 0x3e7 OR'd with the divider's higher bits. |
| EfcInit.GeneralBandWrapsBelowTwoMHz | phoenix05_with_shell/FDV32S305/drivers/efc.c:70-75 | Between 1 MHz and 2 MHz the divider wraps to 0xFFFFFFFF, so the CR value OR'd in is 0xFFFF0000. |
| EfcInit.GeneralBandDividerFits | phoenix05_with_shell/FDV32S305/drivers/efc.c:75 | Between 2 MHz and 130 MHz the divider fits in six bits. Bits 16..21 of the CR value hold it exactly, and bits 22..31 hold exactly 0x3e7. |
| EfcInit.OutsideMaskKept | phoenix05_with_shell/FDV32S305/drivers/efc.c:37-39 | After the clear-then-set of CR, the bits outside the divider mask equal their prior value iff the OR'd value sets no bit outside the mask that was clear before. |
| EfcInit.OutsideMaskKeptForAll | phoenix05_with_shell/FDV32S305/drivers/efc.c:73-75 | The bits outside the mask survive the clear-then-set for every prior CR iff the OR'd value lies inside the mask. |
| EfcInit.Init | phoenix05_with_shell/FDV32S305/drivers/efc.c:27-88 | Init returns TRUE iff the clock is at least 1 MHz. On FALSE it issues no event. On TRUE it issues 14 events: seven protected stores (CR, CR, TNVS, TPROG, TPGS, TRCV, TERS), each right after its own unlock. The first store is CR with the divider fields cleared and every other bit kept. Afterwards CR holds the clear-then-set of the band's bits and the timing registers hold the band's values. |
| EfcInit.InitKeepsOtherCrBits | phoenix05_with_shell/FDV32S305/drivers/efc.c:36-39 | If the band's CR value lies inside the divider fields, Init leaves every CR bit outside those fields as it was. |
| EfcInit.FixedBandsKeepOtherCrBits | phoenix05_with_shell/FDV32S305/drivers/efc.c:34-69 | At 1 MHz and 2 MHz, Init leaves every CR bit outside the divider fields as it was, when those fields cover bit 16 and bits 22..31. |
| EfcInit.GeneralBandKeepsOtherCrBits | phoenix05_with_shell/FDV32S305/drivers/efc.c:70-75 | In the general band, the CR bits outside the divider fields survive Init for every prior CR iff the general band's CR value (the divider shifted to bit 16, OR'd with 0x3e7 shifted to bit 22) lies inside the fields. |
| EfcInit.UpperHalfMaskHoldsCrBits | phoenix05_with_shell/FDV32S305/drivers/efc.c:39-75 | Divider fields covering bits 16..31 contain the CR value of every band. |
| EfcEeprom.EepromWrite | phoenix05_with_shell/FDV32S305/drivers/efc.c:181-207 | EEPROMWrite returns TRUE iff three things hold: the erase succeeded and read back all ones, the address passes the program's check, and the width-sized readback equals the data narrowed to that width. It stops in the program iff the erase verified but the address is misaligned. It stores the all-ones erase word, and then the program's store only when the erase verified and the address is aligned. Its trace is exactly the page erase's trace, followed by the single program's trace only when the erase verified. |
| EfcEeprom.ProgramStatusIgnored | phoenix05_with_shell/FDV32S305/drivers/efc.c:189 | The program's status reads never change what EEPROMWrite returns. |
| EfcEeprom.FailedProgramCanReturnTrue | phoenix05_with_shell/FDV32S305/drivers/efc.c:189-206 | A program whose final status is nonzero but not the success code reports SING_PRG_FAIL, and still lets EEPROMWrite return TRUE when the word reads back as the data. |
| EfcEeprom.FailedEraseStops | phoenix05_with_shell/FDV32S305/drivers/efc.c:183-186 | If the erase fails, EEPROMWrite returns FALSE and issues nothing beyond the erase. |
| EfcEeprom.FreshWordWrite | phoenix05_with_shell/FDV32S305/drivers/efc.c:181-207 | Example: a verified erase, then 0xDEADBEEF written as a word to 0x1000 and read back unchanged. The call returns TRUE after 14 events with exactly two cell stores. |
| EfcIrq.EnabledCr | phoenix05_with_shell/FDV32S305/drivers/efc.c:216 | After enabling, every interrupt-enable bit is set and every other CR bit is unchanged. |
| EfcIrq.DisabledCr | phoenix05_with_shell/FDV32S305/drivers/efc.c:226 | After disabling, every interrupt-enable bit is clear and every other CR bit is unchanged. |
| EfcIrq.EnableIrq | phoenix05_with_shell/FDV32S305/drivers/efc.c:213-217 | EnableIRQ is one unlock followed by one store to CR. It changes CR to the enabled value and leaves the timing registers alone. |
| EfcIrq.DisableIrq | phoenix05_with_shell/FDV32S305/drivers/efc.c:223-227 | DisableIRQ is one unlock followed by one store to CR. It changes CR to the disabled value and leaves the timing registers alone. |
| EfcIrq.EnableIdempotent | phoenix05_with_shell/FDV32S305/drivers/efc.c:216 | Enabling twice gives the same CR as enabling once. |
| EfcIrq.DisableIdempotent | phoenix05_with_shell/FDV32S305/drivers/efc.c:226 | Disabling twice gives the same CR as disabling once. |
| EfcIrq.DisableAfterEnable | phoenix05_with_shell/FDV32S305/drivers/efc.c:213-227 | Disabling after enabling gives the same CR as disabling alone. |
| EfcIrq.EnableAfterDisable | phoenix05_with_shell/FDV32S305/drivers/efc.c:213-227 | Enabling after disabling gives the same CR as enabling alone. |
| EfcIrq.EnableThenDisableRestores | phoenix05_with_shell/FDV32S305/drivers/efc.c:213-227 | Enable then disable restores CR iff all interrupt-enable bits were clear before. |
| EfcIrq.DisableThenEnableRestores | phoenix05_with_shell/FDV32S305/drivers/efc.c:213-227 | Disable then enable restores CR iff all interrupt-enable bits were set before. |

## Left out

- `SystemCoreClockUpdate` and where `SystemCoreClock` comes from: the clock is a parameter of `EfcInit.Init`.
- efc.h is not part of this model. The bit values of the `EFC_CR_*`, `EFC_STS_CD` and `EFC_PRG_*` constants are fields of `RegisterMap`. The `EFC_OPR_*` phase and mode values are symbolic (`Phase`, `OprMode`), since the driver only ORs them together.
- The key sequence inside `EFC_WPT_UNLOCK` is one `Unlock` event, and its contents are not modelled.
- What `PARAM_CHECK` does beyond stopping the call, such as reporting or looping, is defined in efc.h and not modelled.
- The busy-wait `while (!EFC_STS_REG);` has no timeout, so it cannot be shown to end. It is one `Poll` event, and the status read after it is a parameter.
- Physical flash behaviour is not modelled. What an erase or program does to the cell array, and what a load returns, are parameters (`EepromEnv`). So the model does not relate the value read back to the value stored.
- Loads and status reads are not events. Their volatility and any concurrent access by interrupt handlers are not modelled.
- The signed-int type of `EFC_SingleProgram`'s width parameter is not modelled: a `u32` code above `INT_MAX` is taken to select the same width as its 32-bit pattern.
- EfcInit.FixedBandsKeepOtherCrBits: holds only under the hypothesis that `EFC_CR_PRG2MDIV | EFC_CR_ERS2KDIV` covers bit 16 and bits 22..31. The mask values are defined in efc.h, which is not part of this model. For arbitrary masks the exact condition is `EfcInit.InitKeepsOtherCrBits` together with `EfcInit.OutsideMaskKeptForAll`.
- EfcEeprom.EepromWrite: assumes that a failed `PARAM_CHECK` inside `EFC_SingleProgram` ends the whole call (`Aborted`). If `PARAM_CHECK` instead returned from `EFC_SingleProgram`, `EFC_EEPROMWrite` would discard that return (efc.c:189) and compare the readback with no program store. The model does not cover that reading, because efc.h, where `PARAM_CHECK` is defined, is not part of this model.
