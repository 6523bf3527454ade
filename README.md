# Anckor test engine and register access, modelled in Dafny

This project models two small pieces of the stocky kernel repository.

- **The test engine** (`tests/test.c`). `test_engine` walks the registry of test
  descriptors in order. For each one it creates a task and blocks until the
  test sends one word on the test channel. A word other than `TEST_END_WORD`
  sets the error flag. It then destroys the task. The flag decides whether
  `tests_failed` or `tests_passed` goes up and whether the verdict line says
  "failed" or "passed". At the end it prints `ATE - FAILED` when
  `tests_failed` is nonzero and `ATE - PASSED` otherwise. A running test can
  set the flag through `test_set_error`.
- **Register access** (`lib/sys/include/common.h`). `reg_write_double_word`
  and `reg_read_double_word` store and load a 64-bit word at an address.
  `reg_write_byte` reads the word, ANDs it with
  `0xFFFFFFFFFFFFFF00 << (8 * offset)`, ORs in `data << (8 * offset)` and
  writes the result back.

Files:

- `test_engine.dfy`, module `TestEngine`. The globals `test_error`,
  `tests_passed` and `tests_failed` are fields of the class `Engine`. The
  console is a log of `Line` records. `Engine.RunTests` is the engine's `for`
  loop. It is proved against the function `Run`, a fold of `Classify` (one
  loop iteration) over the registry. The lemmas about `Run` state what the
  engine promises. A running test is a `Script`: the values it passes to
  `test_set_error`, in order, then the word it sends. Task creation and
  destruction go into a ghost log of `TaskEvent`s.
- `registers.dfy`, module `Registers`. Memory is a total map from 64-bit
  addresses to `bv64` words, held in the class `RegisterFile`. The two write
  primitives are methods and the read primitive is a function. The mask and
  OR computation of `reg_write_byte` is the function `MergeByte`. The lemma
  `MergeByteAt` characterises it one byte at a time.

Two places in the code do something other than what its own comments and
structure suggest; the model follows the code. The doc comment of
`reg_write_byte` (lib/sys/include/common.h:63-69) says it writes 8-bit data
into a 64-bit register, but its mask clears every byte below `offset` as well
as byte `offset`. In `test_engine` (tests/test.c:59-61) only `test_data` is
reset after each test, and the only place `test_error` becomes false is
`test_set_error` (tests/test.c:92); yet the loop prints a verdict per test
(tests/test.c:67-73) as though each one were judged on its own. Both gaps are
listed under Findings, and a corrected definition is proved beside each.

## Model

| member | source | states |
|---|---|---|
| `TestEngine.FlagAfterCalls` | tests/test.c:91-93 | after a test's `test_set_error` calls the flag is the last value passed; with no call it is unchanged |
| `TestEngine.Classify` | tests/test.c:54-73 | one iteration adds 1 to exactly one counter: to `tests_failed` when the final flag is set, else to `tests_passed`; it appends that test's verdict; a word other than the end word always means failed; the test passes iff it sent the end word and its last `test_set_error` value was false, or it made no call and the flag was already false |
| `TestEngine.Run` | tests/test.c:50-74 | the loop over the registry prints exactly one line per descriptor and keeps everything printed before it |
| `TestEngine.RunCounts` | tests/test.c:28-29 | after a registry of N descriptors, `tests_passed + tests_failed` has grown by exactly N, and neither counter decreased |
| `TestEngine.RunVerdictsInOrder` | tests/test.c:50-73 | one verdict line per descriptor, in registry order, after what was printed before |
| `TestEngine.RunVerdictAt` | tests/test.c:59-73 | line i of the run is test i's verdict, and it says passed exactly when the flag is clear after test i has run, whatever the flag was before |
| `TestEngine.WrongWordPrintedFailed` | tests/test.c:59-73 | a test that sends a word other than the end word is printed as failed, at its own position, whatever came before it |
| `TestEngine.StickyErrorCascades` | tests/test.c:59-61 | if the flag is set when the run starts and no test of the run ends its `test_set_error` calls with false, every test of the run counts as failed: passed unchanged, failed up by the number of tests, flag still set; `StickyErrorAfterWrongWord` applies it after any test i of a run that starts from the initial globals, by splitting the run with `RunAppend` |
| `TestEngine.RunAppend` | tests/test.c:50-74 | the loop over `a + b` ends where the loop over `b` ends when started from the state the loop over `a` leaves: a run can be split after any test |
| `TestEngine.StickyErrorAfterWrongWord` | tests/test.c:59-73 | from any start, including the initial globals: once test i sends a wrong word, the flag stays set and every later test is counted failed (passed unchanged, failed up by the number of later tests), unless a later test ends its `test_set_error` calls with false |
| `TestEngine.StatusOf` | tests/test.c:77-83 | the final status is FAILED exactly when `tests_failed` is nonzero |
| `TestEngine.EmptyRegistryPasses` | tests/test.c:50-83 | from the initial globals, an empty registry leaves 0 passed, 0 failed and status PASSED |
| `TestEngine.PassThenFailScenario` | tests/test.c:54-83 | with registry [sends end word; calls `test_set_error(true)` then sends end word], the result is 1 passed, 1 failed, status FAILED |
| `TestEngine.RunIgnoresLines` | tests/test.c:50-74 | what was printed before the loop does not change the globals it leaves, and its verdicts follow the earlier lines unchanged; this carries the scenarios stated from the initial globals over to the engine, which prints the banner first |
| `TestEngine.EmptyRegistryOnFreshEngine` | tests/test.c:26-84 | a freshly initialised engine with an empty registry prints the banner and then PASSED with 0 passed and 0 failed |
| `TestEngine.PassThenFailOnFreshEngine` | tests/test.c:26-84 | a freshly initialised engine running [sends end word; calls `test_set_error(true)` then sends end word] prints T1 passed, T2 failed, then FAILED with 1 passed and 1 failed |
| `TestEngine.StickyErrorExample` | tests/test.c:59-73 | as written, a test that sends a wrong word makes the next, correct test fail too; with a per-test reset that test passes |
| `TestEngine.RunResetVerdictsAreIndependent` | tests/test.c:59-61 | with the flag reset before each test, the verdict of test i depends only on test i: it passes iff it sends the end word and does not end on `test_set_error(true)` |
| `TestEngine.LifecyclePairs` | tests/test.c:54-64 | descriptor i is created at task event 2i and destroyed through its own stack handle at event 2i + 1 |
| `TestEngine.AtMostOneTestTask` | tests/test.c:54-64 | at every point of the run at most one test task is alive, and none is alive at the end |
| `TestEngine.Engine.constructor` | tests/test.c:26-29 | the globals start as `test_error = false`, both counters 0, nothing printed |
| `TestEngine.Engine.SetError` | tests/test.c:91-93 | `test_set_error(b)` sets the flag to exactly `b` |
| `TestEngine.Engine.ReceiveEndOf` | tests/test.c:54-57 | while the engine waits, the test runs its `test_set_error` calls in order; the engine receives the word the test sends |
| `TestEngine.Engine.RunOne` | tests/test.c:54-73 | one loop iteration changes the globals and console exactly as `Classify` says, and issues one task create then one destroy through the same stack handle |
| `TestEngine.Engine.RunTests` | tests/test.c:39-84 | the globals and console after the loop are `Run` over the registry from the old globals; the counters grow by the registry length; the summary line carries FAILED iff `tests_failed != 0`; the task events are one create/destroy pair per descriptor, in order |
| `Registers.RegisterFile.WriteDoubleWord` | lib/sys/include/common.h:48-61 | after `reg_write_double_word(addr, d)`, reading `addr` returns `d` and every other address reads as before |
| `Registers.RegisterFile.ReadDoubleWord` | lib/sys/include/common.h:58-61 | reading `addr` returns the word held there; its read-after-write behaviour is stated by `WriteDoubleWord` and `WriteByte` |
| `Registers.RegisterFile.WriteByte` | lib/sys/include/common.h:70-76 | `reg_write_byte` reads and writes only `addr`; for every offset whose 64-bit shift amount `8 * offset` is below 64, the new word is `MergeByte` of the old word at byte `offset & 7` |
| `Registers.ShiftAmountWraps` | lib/sys/include/common.h:73-74 | when the 64-bit product `8 * offset` is below 64 it equals `8 * (offset & 7)`, so a wrapped offset shifts like its low three bits |
| `Registers.WrappedOffsetExample` | lib/sys/include/common.h:73-74 | offsets of 8 or more can give a defined shift: 2^61 + 1 shifts by 8 and 0xE000000000000007 by 56 |
| `Registers.MergeByte` | lib/sys/include/common.h:72-74 | byte `offset` and every bit below it come from `data` alone, so the old word's bytes at and below `offset` are lost; after a write at offset 0 the lowest byte is the low byte of `data`, and after any other write it is 0 |
| `Registers.MergeByteAt` | lib/sys/include/common.h:72-74 | byte k of the stored word is 0 below `offset`, the low byte of `data` at `offset`, and the old byte ORed with byte k - offset of `data` above `offset` |
| `Registers.MergeByteWritesData` | lib/sys/include/common.h:73-74 | for `offset < 8` and `data < 256`, byte `offset` of the result is `data` |
| `Registers.MergeByteKeepsHigherBytes` | lib/sys/include/common.h:73-74 | for `data < 256`, bytes strictly above `offset` keep their old values |
| `Registers.MergeByteClearsLowerBytes` | lib/sys/include/common.h:63-73 | bytes strictly below `offset` become 0, against the "write 8-bit data" description |
| `Registers.MergeByteWideDataLeaks` | lib/sys/include/common.h:70-74 | an example: writing 0x1AB at offset 0 into 0 stores 0x1AB, so `data` is not truncated to 8 bits and byte 1 receives 0x01; the general form is `MergeByteAt`'s case above `offset` |
| `Registers.MergeByteIdempotent` | lib/sys/include/common.h:72-75 | writing the same byte twice stores the same word as writing it once |
| `Registers.MergeByteLosesLowerBytes` | lib/sys/include/common.h:63-74 | writing 0xAB at offset 2 into 0x1122334455667788 stores 0x1122334455AB0000, not 0x1122334455AB7788 |
| `Registers.MergeByteAtZeroIsReplace` | lib/sys/include/common.h:73-74 | at offset 0 with `data < 256` the write replaces byte 0 and nothing else |
| `Registers.MergeByteIsReplaceIffOffsetZero` | lib/sys/include/common.h:63-74 | for `data < 256`, the as-written write equals the documented single-byte replace on every word iff `offset == 0` |
| `Registers.ReplaceByteAt` | lib/sys/include/common.h:63-69 | the documented byte write changes byte `offset` to the low byte of `data` and keeps every other byte |
| `Registers.ReplaceByteKeepsLowerBytes` | lib/sys/include/common.h:63-69 | the documented byte write of 0xAB at offset 2 into 0x1122334455667788 gives 0x1122334455AB7788 |

## Findings

| source | as written | input that shows it | evidently intended | confidence | as-written member | corrected member |
|---|---|---|---|---|---|---|
| lib/sys/include/common.h:73 | the mask `0xFFFFFFFFFFFFFF00 << (8 * offset)` clears byte `offset` and every byte below it | word 0x1122334455667788, offset 2, data 0xAB gives 0x1122334455AB0000 | clear only byte `offset` (mask `~(0xFF << (8 * offset))`), giving 0x1122334455AB7788 | high, not executed | `Registers.MergeByteLosesLowerBytes` | `Registers.ReplaceByteAt` |
| tests/test.c:59-61 | `test_error` is never reset between tests, so one failure marks every later test failed, unless that later test ends its `test_set_error` calls with false | registry [sends a wrong word; sends the end word, no `test_set_error` call] gives 0 passed, 2 failed | reset the flag before each test: 1 passed, 1 failed | medium, not executed | `TestEngine.StickyErrorExample` | `TestEngine.RunResetVerdictsAreIndependent` |

The engine class and the register class model the code as written. The
corrected definitions `RunReset` and `ReplaceByte` stand beside them, with
their intended property proved.

## Left out

- The kernel calls `ax_channel_create`, `ax_task_create`, `ax_channel_rcv` and `ax_task_destroy` are not modelled as code. A running test is its script, and task creation and destruction are entries in a ghost event log.
- An unchecked failure of `ax_channel_create` is not modelled: the code has no error path for it.
- The concurrency between the engine and the test task is not modelled. The blocking receive has no timeout, so a test that never sends would hang the engine; the model has every test send exactly one word.
- `printf` text and format strings are not modelled. Each printed line is a `Line` record: the banner, a verdict `(name, passed or failed)`, or the summary `(status, passed, failed)`.
- The registry is a sequence of descriptors. The linker-section walk from `_tests_start` to `_tests_end` and the `REGISTER_APP` registration are left out.
- `TEST_END_WORD` is defined in `include/test.h`, which is not part of this model. Its value is the engine's `endWord` constant, fixed at construction.
- `test_data_len` and the descriptor's `entry` function pointer are not modelled. The entry is the test's script.
- TestEngine.Engine.RunTests: the 64-bit counters `tests_passed` and `tests_failed` are unbounded naturals. They cannot wrap: each test adds 1, and the registry has fewer than 2^64 entries.
- Registers.RegisterFile.WriteByte: requires `8 * offset < 64`, with the product computed modulo 2^64 as in C. A shift count of 64 or more is undefined behaviour in C, so no result is modelled for those offsets. Offsets whose product wraps below 64, such as 2^61 + 1, are modelled and act on byte `offset & 7`.
- `volatile` access and memory-mapped I/O ordering are not modelled. Every address holds a plain word, and a read returns the last word written there.
- The type macros and the `k_return_t` enum carry no logic and are left out.
