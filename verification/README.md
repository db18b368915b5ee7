# Lendiza length decoder, verified

Lendiza reads a window of bytes and answers with one integer: the length of the x86
instruction at its front (1 to 15), or a verdict of at least 0xE0 - 0xE0 "not enough bytes",
0xE1 "undefined", 0xE2 "internal". This project models the two decoders (long mode and
IA-32), the walkers built on them and the build-time table checks, and proves what their
callers rely on, for all byte strings. `dafny verify dfyconfig.toml` checks everything.

## How it is organised

| file | content |
|---|---|
| Common.dfy | bytes, verdicts, prefix state, field widths, both ModRM tables and the manual's ModRM rules |
| Tables.dfy | the table set a mode is instantiated with, and `WellFormed` |
| Decoder.dfy | the decode core (pure), the closed form `Verdict`, and the imperative `ProcessPrefix`, `LdizaSlow`, `Ldiza` |
| Locality.dfy, Verdicts.dfy | bounds; what a verdict depends on; decision bounds; exactly which tables make lengths local |
| Grammar.dfy | the encodings as an assembler's grammar; decoding is its inverse |
| Completeness.dfy, VerdictMeaning.dfy | the least completion of a 0xE0 window; exactly what each verdict means |
| PrefixLaws.dfy | non-interference, and exactly what one prefix more does to each verdict |
| SharedTables.dfy, LongModeTables.dfy, Ia32Tables.dfy, Modes.dfy | the committed tables and the proof that they are well-formed |
| Opcodes.dfy | the instructions of both modes by opcode number, mod, reg and rm, without tables |
| Forms.dfy | the committed tables hold exactly those instructions; round trips |
| ModeLaws.dfy | laws of the committed decoders: exact bounds, agreement of the modes |
| Walking.dfy, Shim.dfy | linear walks and the kernel shim |
| Sweeping.dfy | the benchmark's sweep and dump |
| Checker.dfy, CommittedChecks.dfy | the compile-time checks, what they guarantee and what passes them wrongly |

The decoder is written once over a table parameter `t: Tables`; `t.longMode` selects the
branches in which the two C++ traits differ (REX and VEX kinds, cells 0xB8, 0xFF and 0x07,
the three-byte maps, `tail_iq`, 16-bit addressing). `Modes.LONG` and `Modes.IA32` are the
committed tables, cell for cell: the main maps as rows of sixteen cells, the group and x87
tables as runs of equal cells. `Modes.ModesWellFormed` makes every law about well-formed
tables a law about both decoders. Module Opcodes says what the tables must hold, in opcode
numbers; `Forms.EncodesExactly` proves that they hold just that, so an executable instruction
is an instruction of module Opcodes with at most 15 bytes.

The pure functions follow the C++ functions of the same name:
`ModrmLen`, `GroupLen`, `ThreeByteLen`, `TwoByteLen`, `Decode`, `TailWidth`, `Finish`
(`decode_and_finish`), `PickGroup1`, `PickGroup2`. A window is a sequence, so every read the
model makes is proved to be inside it, and every table index inside its array.
`Verdict` is not the loop: it is built from the size of the maximal prefix run and from
`Summary`, which says by membership what the run amounts to. `ProcessPrefix` is the loop.
A null pointer is `Pointer.Null`; the shim's optional counter is a heap cell.

## Model

| member | source | states |
|---|---|---|
| Decoder.ProcessPrefix | include/lendiza_amd64.hpp:441-504 | The loop stops at the size of the maximal prefix run with flags equal to membership in the run and the REX byte equal to the run's last byte if that is a REX, else zero; its error is 0xE1 for 15 prefixes or a VEX/EVEX byte, 0xE0 when the window ends first (IA-32 twin: include/lendiza_x86.hpp:420-459). |
| Decoder.LdizaSlow | include/lendiza_amd64.hpp:326-336 | The prefix loop followed by the decode core and the final checks gives the closed-form verdict. |
| Decoder.Ldiza | include/lendiza_amd64.hpp:279-320 | The fast path returns, for null and empty windows, lone prefixes, VEX/EVEX, one prefix and stacked prefixes alike, exactly the verdict of the slow pipeline; with long mode off this is the IA-32 entry point (include/lendiza_x86.hpp:273-311). |
| Common.ModrmTablesAreSpans | include/lendiza_common.hpp:81-122 | Both ModRM length tables equal the manual's ModRM/SIB/displacement rules in every cell, and a zero cell marks exactly the operands whose size needs the SIB byte. |
| Locality.DecodeBounds | include/lendiza_amd64.hpp:506-699 | With fitting bodies a body is at least one byte; with handled cells and deciding entries it is never 0xE2, and 0xE0 only while fewer than five (IA-32: four) bytes from the opcode on are there. |
| Locality.DecodeAgree | include/lendiza_amd64.hpp:506-699 | For windows that agree from the opcode on and prefixes that agree on 66, 67 and REX.W: a decided body survives more bytes, and a body no longer than the bytes at hand was already known from them. |
| Verdicts.VerdictRange | include/lendiza_amd64.hpp:339-358 | Totality, for well-formed tables: every verdict is 0xE0, 0xE1, or a length between 1 and the window size and at most 15; 0xE2 never occurs. |
| Verdicts.VerdictIsFinal | include/lendiza_amd64.hpp:279-358 | A length or 0xE1 is unchanged by any bytes appended to the window. |
| Verdicts.LengthIsLocal | tests/test_oracle_regression.cpp:244-273 | If a window decodes to a length, every window that agrees on that many bytes decodes to the same length. |
| Verdicts.InstructionsArePrefixFree | tests/test_oracle_regression.cpp:244-273 | No instruction is a proper prefix of another. |
| Verdicts.TruncationIsInsufficient | tests/test_basic_instructions.cpp:9-13 | Every proper prefix of a decoded instruction decodes to exactly 0xE0. |
| Verdicts.VerdictStream | include/lendiza_amd64.hpp:260-278 | Along a growing window the verdict is 0xE0 up to one point and constant from there on; for a length that point is the length itself. |
| Verdicts.DecisionBound | include/lendiza_amd64.hpp:630-699 | No window of 19 or more bytes (IA-32: 18) is ever 0xE0. |
| ModeLaws.LongDecisionBoundIsTight | include/lendiza_amd64.hpp:677-683 | An 18-byte long-mode window, fourteen prefixes and 0F 38 00 04, is still 0xE0. |
| ModeLaws.Ia32DecisionBoundIsTight | include/lendiza_x86.hpp:533-562 | A 17-byte IA-32 window, fourteen prefixes and 0F 10 04, is still 0xE0. |
| Verdicts.FifteenBytesSuffice | README.md:80-83 | Handing over at most 15 bytes loses no instruction: a longer window has a length exactly when its first 15 bytes have it, and the same one. |
| Verdicts.FullWindowIsHopeless | include/lendiza_amd64.hpp:347-350 | If 15 bytes are 0xE0, no extension of them decodes to a length. |
| Verdicts.LocalExactlyWhenBodiesFit | include/lendiza_common.hpp:210-212 | For any tables with the 0F escape: lengths are local if and only if no reachable fixed body is shorter than its opcode bytes plus the ModRM byte that selects it. |
| Grammar.AssembledDecodes | include/lendiza_amd64.hpp:506-699 | Every encoding of the grammar, followed by any bytes, decodes to its own size, or to 0xE1 when that exceeds 15. |
| Grammar.ParseIsSound | include/lendiza_amd64.hpp:339-358 | The bytes under a length are an encoding of the grammar. |
| Grammar.ParseIsUnique | include/lendiza_amd64.hpp:506-699 | The grammar is unambiguous whatever bytes follow. |
| Grammar.LengthIffInstruction | include/lendiza_amd64.hpp:279-358 | A window has a length if and only if an encoding of at most 15 bytes stands at its front, and then the length is that encoding's size and the encoding is unique. |
| Grammar.LeaOfRegister | include/lendiza_amd64.hpp:599-608 | LEA with mod=11 is 0xE1 behind any prefixes and before any bytes. |
| Forms.SummaryIsBytes | include/lendiza_amd64.hpp:441-504 | In both modes what the prefix loop records is read off the prefix bytes: 66, 67, F0, F2 or F3 and the six segment overrides by membership, and the REX byte in force is the last prefix if that is 40-4F in long mode. |
| Forms.EncodesExactly | include/lendiza_amd64_tables.hpp:12-657 | The encodings of the committed tables are exactly the instructions that module Opcodes defines by opcode number, mod, reg and rm, without any table, for all opcodes of the one-, two- and three-byte maps, all extensions and x87, in both modes (IA-32 twin: include/lendiza_x86_tables.hpp:13-605). |
| Forms.InstructionRoundTrip | include/lendiza_amd64.hpp:506-699 | Each of these instructions, followed by any bytes, gets its own size, or 0xE1 when that exceeds 15. |
| Forms.LengthIffAssembles | include/lendiza_amd64.hpp:279-358 | A window has a length if and only if one of these instructions of at most 15 bytes stands at its front; the length is its size and the instruction is unique. |
| Forms.ModrmFormRoundTrip | tests/lendiza_decode_helpers.h:55-112 | In both modes, any prefix bytes, any opcode number that takes a ModRM operand without immediate, with imm8 or with an operand-sized immediate, any operand sized by the manual's rules (16-bit rules under 67 in IA-32), any trailing bytes: the sum of the sizes up to 15, else 0xE1, and 0xE1 for LEA of a register. |
| Forms.PlainFormRoundTrip | tests/lendiza_decode_helpers.h:109-117 | The same for opcode numbers without a ModRM operand, one and two bytes long: MOV r,imm by 66 and the last REX.W, moffs by 67 and mode, near branches and Iz by 66, far pointers, fixed fields, no field. |
| Forms.ExtensionRoundTrip | tests/test_opcode_extensions.cpp:34-94 | The same for C6, C7, F6, F7, FE, FF, the ten 0F groups and x87: mod, reg and rm decide whether the answer is a length or 0xE1, whether the operand has a displacement, and which immediate follows. |
| Forms.UndefinedForms | include/lendiza_amd64.hpp:540-562 | Opcode numbers without an instruction, and extension opcodes with a ModRM byte that selects none, are 0xE1 behind any prefixes and before any bytes (the two- and three-byte maps: include/lendiza_amd64.hpp:637-699). |
| Forms.VexIsUndefined | include/lendiza_amd64.hpp:480-483 | In long mode 62, C4 and C5 in opcode position are 0xE1 behind any prefixes. |
| Forms.LeaIsUndefined | include/lendiza_amd64.hpp:599-608 | In both modes 8D with mod=11 is 0xE1 behind any prefixes and before any bytes. |
| Forms.OnlyWidthsCount | include/lendiza_amd64.hpp:564-584 | In both modes prefix runs of one size that agree on 66, 67 and the REX.W in force are interchangeable. |
| Forms.OperandSizeCanRescue | include/lendiza_amd64.hpp:344-350 | In both modes, five 2E and 81 84 24 with disp32 and imm32 are 0xE1 and become a 15-byte instruction behind a first 0x66; their first eight bytes are 0xE1 and become 0xE0. |
| Completeness.LeastCompletion | include/lendiza_amd64.hpp:590-628 | A 0xE0 window, with just its own prefixes, properly begins an encoding of exactly `LeastLength` bytes, a number computed from the opcode's class, its fields' widths and the ModRM or SIB byte that is still missing. |
| Completeness.CompletionsAreNoShorter | include/lendiza_amd64.hpp:590-628 | No encoding that a window properly begins is shorter than that. |
| Completeness.ExtensionExactly | include/lendiza_amd64.hpp:344-356 | A window properly begins an encoding of at most 15 bytes if and only if it is 0xE0 and its least completion is within the cap. |
| Completeness.IncompleteIsInsufficient | include/lendiza_amd64.hpp:351-356 | Every proper beginning of an encoding of at most 15 bytes is 0xE0. |
| VerdictMeaning.VerdictsAreExact | include/lendiza_amd64.hpp:270-278 | In both modes, for every window: a length if and only if an executable instruction begins it; it properly begins one if and only if it is 0xE0 and its least completion has at most 15 bytes; neither if and only if it is 0xE1, or 0xE0 with a longer least completion. |
| VerdictMeaning.EightPrefixesAreHarmless | include/lendiza_amd64.hpp:590-628 | Behind at most eight prefixes 0xE0 holds if and only if the window properly begins an executable instruction, and 0xE1 if and only if it neither begins one nor has one at its front. |
| VerdictMeaning.NinePrefixesCanBeHopeless | include/lendiza_amd64.hpp:590-628 | Eight is the largest such number: nine segment prefixes and 81 04 are 0xE0 in both modes although no executable instruction begins or extends them. |
| PrefixLaws.PrefixNonInterference | include/lendiza_amd64.hpp:564-584 | The verdict depends only on the number of prefixes, the presence of 66 and 67, the REX.W in force, and the remaining bytes. |
| PrefixLaws.PrefixOrderIrrelevant | include/lendiza_x86.hpp:420-459 | Without REX prefixes, permuting the prefixes does not change the verdict. |
| PrefixLaws.InertPadding | include/lendiza_amd64.hpp:441-504 | A prefix that leaves the widths in force adds one to a length (0xE1 from 15), keeps 0xE1, and turns 0xE0 into 0xE1 exactly where the prefixes alone then number 15 or the already known body then ends behind the cap; otherwise 0xE0 stays. |
| PrefixLaws.InertPrefixes | include/lendiza_amd64.hpp:484-493 | Such prefixes are: segment, LOCK and REP always, REX without W or in front of another prefix, 66 and 67 when already present. |
| PrefixLaws.FirstOperandSizePadding | include/lendiza_common.hpp:132-146 | A first 0x66 in front of a decoded instruction gives one byte less exactly where the trailing field of the opcode's class is one that operand size shrinks, and one byte more (0xE1 from 15) everywhere else. |
| PrefixLaws.OperandSizeOnUndefined | include/lendiza_amd64.hpp:344-350 | A first 0x66 in front of a 0xE1 window leaves 0xE1, except where prefixes and known body come to 16 bytes and the trailing field shrinks: then the answer is 15 if the window has 14 bytes, else 0xE0. |
| PrefixLaws.OperandSizeOnInsufficient | include/lendiza_amd64.hpp:344-356 | A first 0x66 in front of a 0xE0 window: a known body that shrinks becomes a length, one byte less than before, where at most two of its bytes are missing; a known body that does not shrink becomes 0xE1 where it ended at the cap; an unknown body becomes 0xE1 behind the fifteenth prefix; everything else stays 0xE0. |
| ModeLaws.BodyBound | include/lendiza_amd64.hpp:506-675 | In both modes a successful body has at most 11 bytes, so a length cannot collide with an error code. |
| ModeLaws.BodyBoundIsAttained | include/lendiza_amd64.hpp:529-535 | 81 /0 with SIB, disp32 and imm32 has 11 bytes, 15 behind four prefixes, and is 0xE1 behind five. |
| ModeLaws.CapNeedsFivePrefixes | include/lendiza_amd64.hpp:347-350 | The 15-byte cap rejects a decoded body only behind at least five prefixes. |
| ModeLaws.ModesAgree | include/lendiza_x86.hpp:461-511 | Without 0x67, a window whose opcode is outside 40-4F, C6, C7 and has equal cells in both maps (for 0F: equal two-byte cells outside AE and C7) gets the same verdict in both modes. |
| Modes.ModesWellFormed | include/lendiza_amd64_tables.hpp:12-657 | Both committed table sets are well-formed: indexable, with handled cells and deciding, fitting entries. |
| Walking.PiecesAreSound | kernel-examples/linux/lendiza_kshim.cpp:43-53 | A walk's pieces are instructions, they concatenate to the consumed prefix, and the walk stops where the decoder reports an error. |
| Walking.WalkInvertsConcatenation | kernel-examples/linux/lendiza_kshim.cpp:34-59 | Walking a concatenation of instructions finds exactly those instructions, then whatever follows. |
| Walking.DecompositionIsUnique | kernel-examples/linux/lendiza_kshim.cpp:34-59 | Two lists of instructions with equal concatenations are equal. |
| Walking.ChunkedWalk | kernel-examples/linux/lendiza_kshim.cpp:34-59 | The walk of a++b is the walk of a resumed on the rest, with consumed bytes and instructions adding; if the walk of a stopped on 0xE1, the walk of a++b stops there too. |
| Shim.Decode | kernel-examples/linux/lendiza_kshim.cpp:25-30 | The shim's decode returns the verdict of the selected mode. |
| Shim.Walk | kernel-examples/linux/lendiza_kshim.cpp:34-59 | The loop over 15-byte windows returns the bytes of the walk's instructions and stores their number unless the counter pointer is null. |
| Sweeping.Sweep | bench/bench_decode.cpp:78-105 | The sweep's counters equal those read off the dump, and its checksum is the digest of the dump's marks. |
| Sweeping.CountersAreMarks | bench/bench_decode.cpp:95-103 | The counters of a dump are the numbers of its length marks and of its error marks. |
| Sweeping.ChecksumSteps | bench/bench_decode.cpp:93-103 | In terms of the decoder's answers: an error feeds 0xF0 and moves one byte, a length feeds itself and moves that far, in buffer order; nothing else is fed. |
| Sweeping.MixXorsFirst | bench/bench_decode.cpp:97 | A step xors its byte into the checksum before it multiplies, as FNV-1a does, and turns a single one into the FNV prime. |
| Sweeping.SmallChecksums | bench/bench_decode.cpp:82-103 | The literal 64-bit checksums of the empty buffer, of any one-byte instruction and of any lone byte that is an error. |
| Sweeping.Dump | bench/bench_decode.cpp:107-122 | The array written in place equals the dump of the buffer, zero bytes included. |
| Sweeping.DumpTellsVerdicts | bench/bench_decode.cpp:115-120 | A nonzero entry is at least 0xF0 if and only if the decoder's answer at its position is an error, which is then the entry minus 0x10; otherwise the entry is the answer. |
| Sweeping.SweepConserves | bench/bench_decode.cpp:90-103 | Sum of lengths plus errors equals the buffer size. |
| Sweeping.MarksAreTrace | bench/bench_decode.cpp:107-122 | Judged position by position: every nonzero entry is the verdict's mark there, the bytes under an instruction are zero, and the next sweep position is marked. |
| Sweeping.TraceIsUnique | bench/bench_decode.cpp:107-122 | Those local conditions determine the dump. |
| Sweeping.WalkStopsAtFirstErrorMark | kernel-examples/linux/lendiza_kshim.cpp:43-58 | The shim's walk consumes exactly the bytes before the dump's first error mark, and the length marks before it count its instructions. |
| Checker.TableOk | tests/test_group_tables.cpp:39-45 | The scan accepts exactly the tables whose entries are all accepted encodings. |
| Checker.AcceptedMeans | tests/test_group_tables.cpp:28-37 | The accepted encodings by what group dispatch does with them: below 0x80 those that add 0, 1, 2, 4 or 8 bytes to every operand; with the tail flag the one immediate that adds two bytes under 66 and four otherwise; of 0xA0-0xAF those that answer 2 to 15; from 0xB0 on the three error codes. |
| Checker.IsMember | tests/test_group_tables.cpp:83-89 | The scan finds exactly the listed values. |
| Checker.SentinelPositionsOk | tests/test_group_tables.cpp:93-101 | The scan accepts exactly the maps whose sentinel cells are all listed. |
| Checker.AllOk | tests/test_group_tables.cpp:133-159 | The six lists pass exactly when every table in any of them consists of accepted encodings. |
| Checker.SentinelCheckIsExact | tests/test_group_tables.cpp:83-101 | For any maps: the sentinel checks pass if and only if every 0xEF cell selects an x87 row in 0..7 and every 0xEE cell a non-null group table. |
| Checker.AcceptedIsLocalExactly | tests/test_group_tables.cpp:28-37 | Of tables that pass the checks, lengths are local if and only if no two-byte group uses the fixed body 0xA2. |
| Checker.AcceptedSettlesExactly | tests/test_group_tables.cpp:28-37 | Of tables that pass the checks and whose map cells are handled, 0xE2 never occurs and long windows are never 0xE0 if and only if no reachable entry is 0xE0 or 0xE2. |
| CommittedChecks.CommittedTablesAccepted | tests/test_group_tables.cpp:161-181 | Both committed table sets pass the checks. |
| CommittedChecks.CheckerGap | tests/test_group_tables.cpp:28-37 | Setting 0F B9 to 0xA2 passes the checks, yet 0F B9 00 has length 2 while 0F B9 is 0xE0. |

## Where the code and its documentation differ

- The accepted encodings of the table check (tests/test_group_tables.cpp:28-37) admit a fixed
  body of two bytes and the entries 0xE0 and 0xE2 in any group table. The check is meant to
  keep a mistyped entry from surviving as a silent runtime error (tests/README.md:119-120);
  `Checker.AcceptedIsLocalExactly`, `Checker.AcceptedSettlesExactly` and
  `CommittedChecks.CheckerGap` say exactly what it misses.
  The committed tables use none of these entries.
- The table data is modelled as written. Where a cell deviates from the manual (IA-32 6B,
  0F 70 and 0F C2/C4/C5/C6 without imm8; 0F BA memory forms fixed at 4 bytes; long-mode 0F C7
  fixed at 3 bytes; 0x66 shrinking near branches in long mode) the theorems and module
  Opcodes are about the code's lengths.

## Left out

- VEX, EVEX and REX2 decoding: the library does not implement it; its rejection is modelled.
- The thin C and C++ entry points over the two `ldiza` functions, the Windows scan and the compile probe: the same calls and the same loop as the shim.
- Driver and module entry points, copying of user memory, file input and output, timing: no part of the decoder.
- Sweeping.Dump: models the array the loop fills; writing it to a file is not modelled.
- Integer widths: `size_t` and `uint8_t` arithmetic is modelled on unbounded integers; lengths, offsets and prefix counts are proved to stay below 16 or within the caller's buffer, so nothing wraps for buffers that fit the address space.
