# pmhw host driver, modelled in Dafny

This project models the host-side program of the pmhw transaction
scheduler (`main.cpp`). The program builds a list of transactions and sends
them to the accelerator one `enqueueTransaction` request at a time. Each
transaction is sixteen object slots, and each slot is an `Object`
(`valid`, `write`, `object`). The list has one of two sources:

- **The default workload** (no file named): `numTests * maxScheduledObjects`
  transactions. Slot `2j` of each reads one object and slot `2j + 1` writes
  one. The write target follows a four-way rotation on the transaction
  number. All of it is computed in 32-bit `unsigned` arithmetic.
- **The files on the command line**, in order. Each file has a header line of
  comma-separated labels. Labels beginning with `Read object` or
  `Written object` mark read and write columns. Every later line is one
  transaction. Field `k < 16` of a marked column that is non-empty is
  converted with `std::stoul` and becomes slot `k`. A file that does not
  open returns exit status 1. A file without a header line returns 2. A
  field that is not a number returns 3, and one that is out of range
  returns 4. After an error nothing is sent.

Modules:

- `Base`: the `Object` record and the `Slot` option. The `Then`/`Collect`
  combinators, where the first failure wins. 32-bit wrap-around.
- `Generator`: the default workload. It has specification functions, the
  two nested loops as methods over a fresh array, and the conflict pattern
  of the rotation.
- `Text`: `std::getline(…, ',')` field splitting and base-10 `std::stoul`.
- `Loader`: the header loop and the line loop as methods, and the file loop
  with its early returns. Each is proved equal to a specification function
  (`ReadColumns`/`WriteColumns`, `LineTransaction`, `LoadAll`).
- `LoaderProperties`: what the loader guarantees across lines and files.
- `Dispatch`: the request proxy as a class that records its calls, and the
  run loop.
- `Driver`: `main`'s control flow from the arguments to the calls sent.

A slot of the sixteen-element `std::array` that the program never writes
holds indeterminate contents, because the array is not value-initialised.
The model gives such a slot the value `None`. It does not claim that the
slot holds `valid = 0`.

Three facts about `main.cpp` shape the generator model:

- For `i % 4 == 0` the write target is the read target + 1 (main.cpp:75),
  so a pair never writes the object it reads.
- For `i % 4 == 2` the term `i % 2` is always 0 (main.cpp:77), so the write
  target is transaction 0's write target for every such `i`.
- The code never checks that `2 * objSetSize <= 16`. The driver fixes
  `objSetSize` at 8, which keeps the writes to slots `2j` and `2j + 1` in
  bounds. The generator methods require the bound, and the model keeps
  `objSetSize` as a parameter.

## Model

| member | source | states |
|---|---|---|
| Base.Wrap32 | main.cpp:60-64 | the result of a 32-bit `unsigned` computation is below 2^32 and congruent to the exact value modulo 2^32 (wrap-around), and equals the exact value when that fits |
| Base.Wrap32Parity | main.cpp:70-78 | wrapping modulo 2^32 keeps an object number's parity |
| Base.ThenAssociative | main.cpp:85-147 | accumulating results file by file or all at once gives the same result, the first failure winning either way |
| Base.ThenEmpty | main.cpp:53 | starting from the empty list of transactions changes nothing |
| Base.CollectValues | main.cpp:119-147 | a successful collection holds every result's value, one per result, in order |
| Base.CollectFirstFailure | main.cpp:119-147 | a failed collection fails with the first failing result, all earlier ones succeeding |
| Generator.ReadTarget | main.cpp:70 | the read target `objSetSize * i * 2 + j * 2` in `unsigned` arithmetic; `ReadTargetEven` and `NoReadIsWritten` state its meaning |
| Generator.WriteTarget | main.cpp:75-78 | the four-way rotation on `i % 4` in `unsigned` arithmetic; `WriteTargetOdd` and the four `Rotation` lemmas state each branch |
| Generator.GeneratedSlot | main.cpp:65-80 | slot `k` of transaction `i`: the read of pair `k / 2` on even slots, its write on odd ones, unset from `2 * objSetSize` on; `PairSlots` and `GeneratedShape` state its meaning |
| Generator.GeneratedTransaction | main.cpp:65-80 | a generated transaction has exactly sixteen slots |
| Generator.Workload | main.cpp:64 | the workload has `numTests * maxScheduledObjects` transactions, counted in 32-bit arithmetic |
| Generator.Generated | main.cpp:64-82 | the first `count` generated transactions, `count` of them |
| Generator.GeneratedStep | main.cpp:64-81 | one more pass of the outer loop appends the next transaction |
| Generator.BuildTransaction | main.cpp:65-80 | the inner loop over a fresh array yields the specified transaction: pair `j < objSetSize` gives a read in slot `2j` and a write in slot `2j + 1`, and the remaining slots stay unset |
| Generator.PairSlots | main.cpp:67-79 | slot `2j` holds the read of pair `j` (valid, not a write) and slot `2j + 1` its write (valid, a write) |
| Generator.GenerateTests | main.cpp:64-82 | the outer loop pushes transaction `i` for every counter value below the 32-bit product, in order |
| Generator.DefaultTests | main.cpp:60-82 | the default run uses 4, 8 and `16 / 2` as parameters |
| Generator.GeneratedShape | main.cpp:65-80 | a slot is set exactly when it is below `2 * objSetSize`; set slots are valid, with writes on odd slots and reads on even ones |
| Generator.DefaultWorkloadShape | main.cpp:60-81 | the default run has 32 transactions; all sixteen slots of each are valid, odd slots write and even slots read, and slot `k` of transaction `i` reads object `16i + k` |
| Generator.ReadTargetEven | main.cpp:70 | every read target is even, wrap-around included |
| Generator.WriteTargetOdd | main.cpp:75-78 | every write target is odd, in all four branches of the rotation |
| Generator.NoReadIsWritten | main.cpp:70-78 | no object read by any generated transaction is written by any generated transaction |
| Generator.RotationSelf | main.cpp:75 | for `i % 4 == 0` the write target is the object after the one slot `2j` reads |
| Generator.RotationNeighbour | main.cpp:76 | for `i % 4 == 1` the write target equals transaction `i - 1`'s |
| Generator.RotationFirst | main.cpp:77 | for `i % 4 == 2` the write target equals transaction 0's |
| Generator.RotationShared | main.cpp:78 | all transactions with `i % 4 == 3` share the write target `2 * objSetSize + 2j + 1` |
| Text.Split | main.cpp:109 | there is always at least one part, and no part contains a comma |
| Text.SplitCount | main.cpp:109 | `k` commas cut the text into `k + 1` parts |
| Text.Fields | main.cpp:109-126 | the fields `getline(…, ',')` delivers contain no comma |
| Text.JoinSplit | main.cpp:109 | re-joining the comma-split parts gives back the text |
| Text.SplitJoin | main.cpp:125-126 | splitting undoes the joining of comma-free parts |
| Text.FieldsOfJoin | main.cpp:125-126 | a line written from comma-free cells, the last one non-empty, reads back as exactly those cells |
| Text.FieldsOfJoinTrailingComma | main.cpp:125-126 | with a trailing comma the same cells are read back, because the empty last field is not delivered |
| Text.FieldsOfSplit | main.cpp:109-126 | the delivered fields are all the parts, except an empty last one |
| Text.FieldsOfCells | main.cpp:125-126 | comma-free cells written out read back as all the cells, except an empty last one |
| Text.FieldsJoin | main.cpp:109-126 | an empty line delivers no field; otherwise the fields joined give the line back, apart from a trailing comma |
| Text.SkipSpaces | main.cpp:131 | the text after its leading white space; `SkipSpacesShape` states what is removed |
| Text.SkipSpacesShape | main.cpp:131 | exactly the leading run of white space is skipped |
| Text.DigitPrefix | main.cpp:131 | the digit run after the sign, made of digits only; `DigitPrefixShape` states that it is the longest such prefix |
| Text.DigitPrefixShape | main.cpp:131 | the converted digits are a prefix of the text, and end at its end or before a non-digit |
| Text.Stoul | main.cpp:131 | a converted value fits an `unsigned long` |
| Text.Convert | main.cpp:131-139 | the conversion of the digit run: a converted value fits an `unsigned long`; `StoulDigits`, `StoulNoDigit` and `StoulMinus` state its three outcomes |
| Text.Negate | main.cpp:131 | `-v` in `unsigned long` arithmetic fits 64 bits and adds to `v` to a multiple of 2^64 |
| Text.DigitsValueDecimal | main.cpp:131 | the digits of a number's decimal text denote that number |
| Text.DigitsHaveNoComma | main.cpp:125-131 | a number's digits contain no comma, so its text is a single field |
| Text.StoulDecimal | main.cpp:131 | round trip: a number's decimal text, followed by anything that does not start with a digit, converts back to the number, or throws `out_of_range` above `ULONG_MAX` |
| Text.StoulDigits | main.cpp:131 | a digit-only field converts to its value, or throws `out_of_range` when the value does not fit |
| Text.StoulTrailingText | main.cpp:131 | text after the digit run is ignored ("12abc" converts as "12") |
| Text.StoulSpace | main.cpp:131 | leading white space is skipped |
| Text.StoulPlus | main.cpp:131 | a plus sign before the digits changes nothing |
| Text.StoulMinus | main.cpp:131 | a minus sign negates modulo 2^64 ("-1" gives `ULONG_MAX`), and an out-of-range magnitude still throws |
| Text.StoulNoDigit | main.cpp:131-135 | a field with no digit after the white space and the sign throws `invalid_argument` |
| Text.StoulLetters | main.cpp:131-135 | "abc" throws `invalid_argument` |
| Text.StoulTooManyDigits | main.cpp:131-139 | twenty or more digits led by a digit of at least 2 throw `out_of_range` |
| Loader.ExitCode | main.cpp:92-140 | the four errors map one-to-one onto exit statuses 1 to 4 |
| Loader.SetContains | main.cpp:17-19 | `set_contains`, membership of an index in a column set |
| Loader.ReadColumns | main.cpp:109-111 | the columns whose label begins with `Read object`; `HeaderColumns` states the membership condition |
| Loader.WriteColumns | main.cpp:109-114 | the columns whose label begins with `Written object` and not with `Read object`; `HeaderColumns` states the membership condition and the disjointness |
| Loader.ParseHeader | main.cpp:105-115 | the header loop yields exactly the read and the write columns of the header |
| Loader.PrefixesExclusive | main.cpp:110-113 | no label begins with both `Read object` and `Written object` |
| Loader.HeaderColumns | main.cpp:109-115 | column `k` is a read column iff label `k` exists and begins with `Read object`, a write column iff it begins with `Written object`; the two sets are disjoint |
| Loader.Examined | main.cpp:125-128 | the condition under which the line loop converts field `k`; `LineSlots` states that exactly these slots are set |
| Loader.CellSlot | main.cpp:127-144 | what field `k` contributes: nothing, a converted slot, or the abort; `ScanCellsAdvance`, `ScanCellsAbort` and `LineSlots` state its meaning |
| Loader.ScanCells | main.cpp:125-145 | the slots from `k` on, the first failing field deciding the failure; `ScanCellsMeaning` states it slot by slot |
| Loader.LineTransaction | main.cpp:120-146 | the transaction of one content line; `LineSucceeds`, `LineSlots` and `LineFails` state its meaning |
| Loader.ScanCellsPastFields | main.cpp:125-126 | past the last field, the remaining slots stay unset |
| Loader.ScanCellsAdvance | main.cpp:125-144 | a field that converts, or is not examined, contributes its slot and the loop moves on |
| Loader.ScanCellsAbort | main.cpp:130-140 | a field that does not convert is the line's failure |
| Loader.ParseLine | main.cpp:120-145 | the line loop over a fresh array yields the line's specified transaction, or its failure |
| Loader.StoreField | main.cpp:127-144 | one pass of the field loop: when field `i` converts or is not examined, slot `i` becomes its contribution, every other slot is unchanged and the loop invariant holds for `i + 1`; otherwise the array is unchanged and the abort returned is field `i`'s and the line's failure |
| Loader.LineLoopStep | main.cpp:125-144 | storing field `i`'s contribution, and changing nothing else, keeps the line loop's invariant |
| Loader.LineLoopAbort | main.cpp:130-140 | returning on the first bad field is the line's failure |
| Loader.ScanCellsFinish | main.cpp:125-126 | when the loop stops at the sixteenth slot or at the last field, the array is the line's transaction |
| Loader.ScanCellsMeaning | main.cpp:125-144 | the slots succeed iff every examined field converts, slot `m` is then the field's contribution, and a failure is that of the first failing field |
| Loader.ScanCellsValues | main.cpp:125-144 | a successful scan holds each field's contribution in its slot |
| Loader.ScanCellsFirstFailure | main.cpp:130-140 | a failed scan fails with its first failing field |
| Loader.AbortFor | main.cpp:132-139 | a `stoul` exception always aborts with a not-a-number or an out-of-range error |
| Loader.AbortExitCode | main.cpp:132-139 | `invalid_argument` ends the run with exit status 3 and `out_of_range` with 4 |
| Loader.LineSucceeds | main.cpp:125-144 | a content line succeeds iff every field it examines converts |
| Loader.LineSlots | main.cpp:125-143 | slot `k` of a successful line is set iff field `k` exists, is non-empty and is in a marked column; it is then valid, a write iff `k` is a write column, and holds the converted field |
| Loader.LineFails | main.cpp:125-140 | a failing line fails with the exit of its first examined field that does not convert; every examined field before it converts |
| Loader.ScanCellsFirstSixteen | main.cpp:125-126 | only the first sixteen fields are looked at |
| Loader.LineIgnoresExtraFields | main.cpp:125-126 | whatever follows field 15, even text that does not convert, changes nothing |
| Loader.LineResultsAt | main.cpp:119-147 | one result per content line, result `n` being line `n`'s |
| Loader.ContentTransactions | main.cpp:119-147 | the transactions of a file's content lines, or the first failure; `ContentLinesInOrder` and `ContentLinesFirstFailure` state its meaning |
| Loader.ContentTransactionsCons | main.cpp:119-147 | a file's content lines are its first line's transaction followed by the rest |
| Loader.LoadFile | main.cpp:90-147 | one file: exit 1 if it does not open, 2 without a header, otherwise its content lines under the header's columns; `FileErrors` and `LoadFileLines` state its meaning |
| Loader.LoadAll | main.cpp:85-149 | all files in argument order, the first failure aborting; `LoadAllAppend`, `LoadAllFirstFailure` and `LoadAllCount` state its meaning |
| Loader.LoadTests | main.cpp:85-149 | the file loop, with its early returns, yields exactly the specified load of all the files |
| Loader.FileStep | main.cpp:90-115 | a file that does not open returns 1, a file with no header returns 2, and otherwise its header columns govern its lines |
| Loader.LineStep | main.cpp:119-147 | a failing line is the run's failure; a successful one is pushed and the loop moves on |
| Loader.FileDone | main.cpp:119-148 | at the end of a file, loading goes on with the next file |
| Loader.FilesDone | main.cpp:85-149 | after the last file the transactions pushed are the whole load |
| LoaderProperties.ContentLinesSucceed | main.cpp:119-147 | a file's content lines succeed iff every line succeeds |
| LoaderProperties.ContentLinesInOrder | main.cpp:119-146 | one transaction per content line, empty lines included, in file order |
| LoaderProperties.ContentLinesFirstFailure | main.cpp:119-147 | a failing file fails with its first failing content line, all earlier lines succeeding |
| LoaderProperties.LoadAllAppend | main.cpp:85-149 | loading two lists of files in turn is loading their concatenation: the second list's transactions follow the first's, and the first failure wins |
| LoaderProperties.LoadOne | main.cpp:85-149 | loading a one-file list is loading that file |
| LoaderProperties.LoadSameFileTwice | main.cpp:85-149 | a file named twice is loaded twice, one copy after the other |
| LoaderProperties.LoadAllFirstFailure | main.cpp:85-149 | the load fails iff some file fails, and then with the first failing file's error |
| LoaderProperties.LoadAllSucceeds | main.cpp:85-149 | a successful load has every file succeed |
| LoaderProperties.LoadAllFailing | main.cpp:85-149 | a failed load fails with its first failing file |
| LoaderProperties.LoadAllCount | main.cpp:119-146 | a successful load has exactly one transaction per content line of every file |
| LoaderProperties.LoadAllSlots | main.cpp:120-146 | every loaded transaction has sixteen slots |
| LoaderProperties.LoadFileLines | main.cpp:119-146 | transaction `n` of a loaded file is its content line `n + 1` |
| LoaderProperties.FileErrors | main.cpp:92-140 | an unopenable file gives 1 and an empty file 2; a failing file gives 3 or 4, according to the exception of the first bad examined field on its first failing line, every earlier content line loading successfully |
| LoaderProperties.BadLineError | main.cpp:130-140 | the error of a failing file's content lines is the exit of the first bad field on the first failing content line, every earlier content line succeeding |
| LoaderProperties.ContentLinesBadField | main.cpp:130-140 | a failing file names its first failing line `n` (every earlier line succeeds) and field `k`, that line's first bad examined field, and the error is that field's exception |
| LoaderProperties.RowFieldCount | main.cpp:125-126 | a row written as a line delivers at most one field per cell |
| LoaderProperties.RowField | main.cpp:125-126 | field `k` of a written row is cell `k`'s text, and only an empty last cell is missing |
| LoaderProperties.LineRoundTrip | main.cpp:120-146 | round trip: a row of addresses up to `ULONG_MAX`, written as a comma-separated line, loads back with slot `k` equal to `Object(valid, write iff column k is a write column, the address)` when cell `k` is set and column `k` is marked, and unset otherwise |
| LoaderProperties.ContentRoundTrip | main.cpp:119-147 | the lines written from the rows of a table load as one transaction per row, each as `LineRoundTrip` states |
| LoaderProperties.FileRoundTrip | main.cpp:90-147 | round trip: a table written as a file under any header loads back as one transaction per row, slot by slot as `LineRoundTrip` states, under the header's columns |
| LoaderProperties.NoRecognisedLabels | main.cpp:109-146 | with no recognised label, every line loads as sixteen unset slots |
| LoaderProperties.ScanCellsUnmarked | main.cpp:127-128 | with no marked column, no field is ever converted |
| Dispatch.HostToPuppetmasterProxy.constructor | main.cpp:42-43 | a new proxy has received no request |
| Dispatch.HostToPuppetmasterProxy.EnqueueTransaction | main.cpp:155-157 | a request appends one call with its number and its sixteen slots to the log |
| Dispatch.DispatchLog | main.cpp:153-158 | one request per transaction |
| Dispatch.DispatchLogAt | main.cpp:153-157 | request `k` carries transaction `k` under number `first + k` |
| Dispatch.DispatchLogAppend | main.cpp:153-158 | sending two lists in turn numbers the second from where the first stopped |
| Dispatch.DispatchLogDistinct | main.cpp:153-157 | no two requests carry the same transaction number |
| Dispatch.RunTests | main.cpp:153-158 | the run loop sends transaction `i` with number `i`, in order, once each, and nothing else |
| Driver.Run | main.cpp:55-158 | with no file the default workload is sent; with files, a load error returns its exit status with nothing sent, and otherwise every loaded transaction is sent in order |
| Driver.RunNumbering | main.cpp:85-158 | the transactions of a later file are numbered after all those of the earlier files |

## Left out

- The indication callbacks `transactionStarted` and `transactionFinished` are left out. They only print, and they run asynchronously.
- The final `while (true)` wait is left out. `Driver.Run` reports it as the exit status `None`.
- Building the Connectal request and indication interfaces is left out. The proxy keeps only the sequence of calls it receives; the transport behind `enqueueTransaction` is generated code.
- File I/O is modelled by values. A command-line file is either `Missing` (it does not open) or `Contents(lines)`, the lines `std::getline` delivers. Line splitting, end-of-line conventions and stream errors are not modelled.
- Console messages and their formats are left out.
- The width of `ObjectAddress` is left out, because it is defined in generated code. Objects are `nat` values up to 2^64 - 1, so any narrowing of the converted address is not modelled.
- `std::stoul` is modelled for the C locale only. Locale-specific white space and digits are not modelled.
- Loader.SetContains: `set_contains` is modelled as set membership on the model's index sets, not as a hash-set lookup.
- Generator.BuildTransaction and Generator.GenerateTests require `2 * objSetSize <= 16`. The code has no such check; beyond the bound its array writes would be out of bounds.
- Generator.GenerateTests requires both parameters to be below 2^32, the range of their `unsigned` type.
