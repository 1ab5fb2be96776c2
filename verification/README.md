# A verified model of libcxlmi-meta

This project models the parts of the repository that carry state or arithmetic, and proves what
they keep on every input. It covers the firmware-update driver, the command-line option parser
with the device selection built on it, the growable byte buffer, the chunked statistics download,
and the UUID and hexadecimal codecs. `dafny verify dfyconfig.toml` checks all of it.

## How it is organised

| file | content |
|---|---|
| `machine.dfy` | bytes, options, storing in a 32-bit `int` |
| `firmware_device.dfy` | transfer requests, and a device that follows Transfer FW (section 8.2.9.3.2 of the CXL 3.0 specification) |
| `firmware_update.dfy` | the driver, as a class with the retry loops and as a function of the environment |
| `firmware_safety.dfy` | what every command of a run keeps |
| `firmware_results.dfy` | theorems about whole runs |
| `firmware_wire.dfy` | requests, answers and return codes, told by the parameters and the environment |
| `numbers.dfy` | strtol and strtoull (section 7.22.1.4 of C11, 64-bit long) and numeric option values |
| `number_texts.dfy` | which texts are accepted as numbers, and as which |
| `options.dfy` | the option parser as a function of the tokens |
| `parse_context.dfy` | the parser that compacts argv in place, proved to compute that function |
| `options_lookup.dfy` | the meaning of a long name, and when it depends on the order of the table |
| `options_results.dfy` | what becomes of each token; the short name `h` |
| `options_roundtrip.dfy` | settings written as a command line and read back |
| `options_mistakes.dfy` | the mistakes on a command line and how each ends the program |
| `cmd_action.dfy` | the choice of devices from what is left in argv |
| `strbuf.dfy` | the growable buffer and its growth policy |
| `ddr_stats.dfy` | the chunked download of the DDR statistics |
| `uuid.dfy`, `hex_string.dfy` | the text codecs |

The environment of a run (file system, allocator, device) is a parameter that answers the k-th
command of the run; a statement for every such parameter covers every device, also one that reacts
to what it was sent. The only assumption about a device is that it does not report success for a
part that it did not take. `sleep` has no effect in the model, `realloc` and the buffers of the
heap deliver arbitrary bytes (the parameter `junk`), and `malloc` of a negative size fails.

## What the proofs brought to light

The model follows the code. Where the code differs from its own messages, comments or purpose, the
difference is a theorem:

- The driver retries eleven times, not ten as `max_retries` and its messages say
  (`CommandBoundIsTight`, `AbortNeedsTwelveFailures`).
- The help text of `--mock` announces one Continue before the abort; the code aborts after
  Initiate (`MockAbortsAfterInitiate`).
- The result of a successful abort replaces the failure before it, so a failed update can return 0
  (`ZeroMeansDeliveredUnlessAborted`, `FailedUpdateReturnsZero`).
- A one-block image is only ever initiated; its transfer is never ended (`TransferIsEnded`).
- The file size goes through an `int`: a file of 4 GiB and one byte is "updated" by sending one
  byte (`WholeFileDelivered`, `HugeFileIsTruncated`).
- The comment on strbuf says that every function keeps the NUL byte behind the contents. The first
  allocation by `strbuf_grow` or `strbuf_init` with a hint does not write it (`Grow`, `Init`).
- The growth policy is amortised, with a factor of two, for all requests up to a limit exactly when
  that limit is at most 2^64 / 3 - 15 bytes, rounded down; above it a capacity is reached for which
  `(x + 16) * 3` wraps around (`GrowthIsAmortised`).
- The statistics loop gives up on negative return codes only. After a positive one it displays
  whatever was in the heap (`RightIffAllChunksOk`).
- `x all` is turned down while `x y all` acts on every device (`OneBadNameIsWorseThanTwo`).
- Hexadecimal without `0x` is accepted as the decimal number of the same digits when it has no
  letter (`BareHexRoundTrip`); a decimal number that is too large is accepted and another one is
  stored (`DecimalRoundTrip`); an empty text is 0 (`EmptyTextIsZero`).
- The short name `h` of the hpa-to-dpa table cannot be reached (`HpaNeedsItsLongName`).
- `--no-` and an option's name does not negate the option when the name begins its own negation,
  as n, no and no- do (`NegationWorks`).
- The order of an option table matters exactly when two entries are in conflict about an argument:
  both match it and mean something else by it, or one has only a stem and lends the other a value
  (`OrderMattersExactlyOnConflict`). Whether there are conflicts can be decided by looking at the
  names and negations themselves (`ConflictsAreInForms`). Without `=` in a name they are between
  equal names and between a name and the same name behind `no-` or `no-no-`
  (`OrderMattersExactlyOnClash`); other names that start with `no-` do no harm
  (`HarmfulNegativeNames`). With `=` in a name a value can be lent (`EqualsSignInName`).
- With KEEP_UNKNOWN a cluster can be understood in part: its known switches take effect and only
  the rest stays in argv (`KnownSwitchIsCutOff`, `TokensAreAccountedFor`).
- The size of the downloaded statistics goes through an `int` too, while the display reads all
  records (`RecordsAreIntact`); after 2^27 loops nothing is downloaded (`NoRecordOfManyLoops`).
- `uuid_parse` gets any text from the command line and reads beyond its end, exactly when it is too
  short and no missing dash stops it before (`ReadsOnlyTheText`, `ShortTexts`).
- `uuid_parse` refuses no digit: what is not hexadecimal is read as another byte (`AnyByte`).
- The hexadecimal encoder never ends for 128 bytes or more (`BothPassesEnd`).

## Model

| member | source | states |
|---|---|---|
| FirmwareSafety.RunIsSafe | cxl/src/cxl_cmd.c:480-580 | every run, whatever the device answers, ends in a safe state: complete, out of memory between two blocks, or aborted, with the log and the device related as the phases require |
| FirmwareSafety.SendStep | cxl/src/cxl_cmd.c:511-533 | one send or repeat of a block keeps the run on track: the device holds the blocks before it, or those and this one, and no part was out of turn |
| FirmwareSafety.PollStep | cxl/src/cxl_cmd.c:540-554 | only a poll that returns 0 makes the next block ready |
| FirmwareSafety.AbortStep | cxl/src/cxl_cmd.c:571-580 | an abort follows a failed send or poll, or a mock block, and leaves the device without the image or with whole blocks |
| FirmwareResults.TraceSafety | cxl/src/cxl_cmd.c:500-580 | repeats merged, a run sends parts 0, 1, 2, ... as Initiate, Continue, End, then at most one abort, which is last; neighbouring commands obey the retry and polling rules; which parts were sent follows from how the run ended |
| FirmwareResults.EveryPartSent | cxl/src/cxl_cmd.c:500-580 | all parts have been sent if and only if the run completed or was aborted on the last block, as a mock run of one block is |
| FirmwareResults.ExactlyOnceAssembly | cxl/src/cxl_cmd.c:480-568 | no part is ever offered out of turn; a completed run leaves exactly the image on the device, any other run whole leading blocks or nothing |
| FirmwareResults.TransferIsEnded | cxl/src/cxl_cmd.c:500-505 | a completed run ends the transfer if and only if there are two blocks or more |
| FirmwareResults.WholeFileDelivered | cxl/src/cxl_cmd.c:436-466 | a completed run delivers the whole file if and only if the file is shorter than 2 GiB |
| FirmwareResults.HugeFileIsTruncated | cxl/src/cxl_cmd.c:436-441 | a file of 2^32 + 1 bytes yields return code 0 and one byte on the device |
| FirmwareResults.ZeroMeansDeliveredUnlessAborted | cxl/src/cxl_cmd.c:571-590 | after return code 0 the device holds the image if and only if no abort was sent |
| FirmwareResults.FailedUpdateReturnsZero | cxl/src/cxl_cmd.c:518-590 | for every file with a positive `int` size some device takes none of the parts that it is sent and the update still returns 0 |
| FirmwareResults.MockAbortsAfterInitiate | cxl/src/cxl_cmd.c:561-580 | a mock run sends Initiate and then the abort, never Continue |
| FirmwareResults.AbortNeedsTwelveFailures | cxl/src/cxl_cmd.c:516-554 | a block is given up only after twelve failures of the same command in a row |
| FirmwareResults.ResponsiveDeviceIsUpdated | cxl/src/cxl_cmd.c:480-568 | a device that always succeeds within twelve commands is updated completely |
| FirmwareResults.CommandBound | cxl/src/cxl_cmd.c:408-580 | a run issues at most 24 n + 1 commands for n blocks |
| FirmwareResults.CommandBoundIsTight | cxl/src/cxl_cmd.c:516-554 | some device makes the driver issue exactly 24 n + 1 commands |
| FirmwareResults.ProgressLines | cxl/src/cxl_cmd.c:483-487 | the progress lines say 0, 10, 20, ... at increasing blocks, never more than the true share, at most ten of them |
| FirmwareResults.TenLinesIffTenBlocks | cxl/src/cxl_cmd.c:483-487 | ten lines with ten blocks or more, otherwise one for each block |
| FirmwareResults.LinesAreEarliest | cxl/src/cxl_cmd.c:483-487 | with ten blocks or more, each line comes at the first block that reaches its share |
| FirmwareResults.FirstLineAlways | cxl/src/cxl_cmd.c:480-497 | the line for 0 per cent comes first, however the run ends |
| FirmwareUpdate.BlocksTile | cxl/src/cxl_cmd.c:436-491 | the blocks are non-empty, at most 128 bytes, lie end to end and cover the image |
| FirmwareUpdate.BlockArithmeticFits | cxl/src/cxl_cmd.c:481-483 | i * 100 and the offsets fit in a 32-bit int for every representable size |
| FirmwareUpdate.Updater.SendBlock | cxl/src/cxl_cmd.c:511-533 | the send loop issues exactly the commands of the send phase and returns 0 if and only if one succeeded |
| FirmwareUpdate.Updater.AwaitBlock | cxl/src/cxl_cmd.c:540-554 | the same for the polling loop |
| FirmwareUpdate.Updater.BlockLoop | cxl/src/cxl_cmd.c:480-568 | the block loop leaves towards the abort path with the buffer of the current block live, otherwise with none; each buffer is taken and given back once |
| FirmwareUpdate.Updater.UpdateDeviceFw | cxl/src/cxl_cmd.c:400-591 | log, return code and progress lines are those of the run function on every path; file, image buffer and request buffers are all released |
| FirmwareWire.AnswersDecide | cxl/src/cxl_cmd.c:511-568 | each command follows from the answer of the environment to the one before: a next part, or a mock abort, goes out only after a status that came over with bit 23 clear; a completed run ends with such a status |
| FirmwareWire.AbortedForAReason | cxl/src/cxl_cmd.c:516-554 | without mock, an abort comes after twelve failed sends of one part, or twelve polls without an idle status, in a row |
| FirmwareWire.RequestsAreAskedFor | cxl/src/cxl_cmd.c:457-509 | every request has the channel and the slot of the parameters, the bytes of the file at 128 times its offset, and the action of its place; the abort has offset 128 |
| FirmwareWire.MockNeverCompletes | cxl/src/cxl_cmd.c:561-563 | an update that was asked to mock completes only when there is nothing to send |
| FirmwareWire.CodeOfUpdate | cxl/src/cxl_cmd.c:416-590 | the return code of every run: -2, -12, 0, or the result of the abort |
| FirmwareUpdate.StatusIsRead | vendor_meta/src/vendor_commands.c:165-180 | the status command returns 0 exactly for an answer that came over with bit 23 clear; a transport failure is handed on |
| FirmwareUpdate.RunningIsBit23 | vendor_meta/src/vendor_commands.c:148-181 | the running field is bit 23 of the status word alone, 0 or 1, whatever the other fields hold |
| ParseContext.ParseOptions | vendor_util/src/parse_option.c:671-727 | the in-place parser leaves exactly what the pure parser says: the kept tokens, then the rest, then a null slot, and the same store and exit; from slot argc on nothing changes, unless the list is as long as before and its null slot is written again |
| ParseContext.Ctx.ParseOptionsStep | vendor_util/src/parse_option.c:576-663 | the token loop computes the pure parse; the write position never passes the read position and the slots around the list stay |
| ParseContext.Ctx.StepOver | vendor_util/src/parse_option.c:584-661 | one round makes the pure move on the tokens ahead, the kept tokens, the store and the value that may be left over; the tokens ahead are still the original ones |
| ParseContext.Ctx.ReadCluster | vendor_util/src/parse_option.c:594-627 | the loop over clustered switches computes the pure cluster, with the suffix left in opt |
| ParseContext.Ctx.GetValue | vendor_util/src/parse_option.c:262-428 | value, store and position after an option are those of the pure function, also the value that a refused number leaves in its variable |
| ParseContext.Ctx.GetArg | vendor_util/src/parse_option.c:246-260 | an attached value comes first, then the next token, else it fails |
| ParseContext.Ctx.ScanLongNames | vendor_util/src/parse_option.c:441-541 | the table scan computes the pure selection for every table, with the attached value in opt, also one left over from an earlier token |
| ParseContext.Ctx.CheckTypos | vendor_util/src/parse_option.c:543-560 | true exactly for words of three characters or more that start with `no-` or begin a long name |
| ParseContext.Ctx.ParseOptionsEnd | vendor_util/src/parse_option.c:665-669 | the unread tokens move up behind the kept ones and a null slot closes the list, inside the array |
| OptionsResults.TokensAreAccountedFor | vendor_util/src/parse_option.c:584-661 | under all flags each token is exactly one of operand, option, its value, or the dropped separator; argv keeps the operands in order, each as given or, only with KEEP_UNKNOWN, cut down to a dash and a proper suffix; all are as given if and only if none is a cluster that begins with a known switch |
| OptionsResults.KnownSwitchIsCutOff | vendor_util/src/parse_option.c:607-625 | with KEEP_UNKNOWN and a switch x, `-xq` sets x and leaves `-q` |
| OptionsResults.LeftOverReachesNext | vendor_util/src/parse_option.c:461-501 | behind a plain argument with `=` in its name, the value of a stem reaches the next long option, past an operand, and no further |
| OptionsResults.ShortHIsNeverUsed | vendor_util/src/parse_option.c:594-627 | with internal help the parser behaves as if no option had the short name `h` |
| OptionsResults.HpaNeedsItsLongName | cxl/src/cmd_parser.c:1008-1015 | without a token that starts with two dashes the address is never set |
| OptionsLookup.ConsiderEntry | vendor_util/src/parse_option.c:450-528 | for every name, the comparisons of one table entry amount to: whole name, whole negation, stem of either, or nothing |
| OptionsLookup.LongNameResolution | vendor_util/src/parse_option.c:441-541 | in every table, the first whole name or whole negation goes before every stem, with its own value or else one that an earlier stem left; without one, a single stem decides, several are ambiguous, none is unknown |
| OptionsLookup.OrderMattersExactlyOnConflict | vendor_util/src/parse_option.c:441-541 | for every table: all reorderings give every argument the same meaning if and only if no two entries disagree about an argument or lend each other a value |
| OptionsLookup.ConflictsAreInForms | vendor_util/src/parse_option.c:441-541 | for every table: this holds if and only if there is no conflict about the names of the entries, with `no-` in front or left out; a finite check |
| OptionsLookup.OrderMattersExactlyOnClash | vendor_util/src/parse_option.c:450-528 | without `=` in a name, the same in terms of the names: no two different entries share a name, and no name is another one behind `no-` or `no-no-`, but for arguments and names that repeat themselves |
| OptionsLookup.HarmfulNegativeNames | vendor_util/src/parse_option.c:468-486 | beside `foo` the order of `no-foo` and of `no-no-foo` matters, beside `bar` neither |
| OptionsLookup.EqualsSignInName | vendor_util/src/parse_option.c:489-527 | the entry `a=b` takes a value or not, depending on whether `ab` stands before it |
| OptionsLookup.NegationWorks | vendor_util/src/parse_option.c:487-522 | `--no-` and a name negates that option if and only if the name does not begin its own negation and no earlier entry matches |
| OptionsRoundTrip.RenderParse | vendor_util/src/parse_option.c:430-663 | parsing any rendered list of settings, switches, negations, abbreviations, clusters and positionals gives back the positionals in order, the effects in order and the tail |
| OptionsRoundTrip.LastSettingWins | vendor_util/src/parse_option.c:262-541 | after parsing, a variable holds what the last item that may change it says: the given text, the number of the given numeral, nothing or zero after a negation, the state of a Boolean switch, alone, abbreviated or in a cluster, and its given-flag |
| OptionsRoundTrip.TextIsStored | vendor_util/src/parse_option.c:325-342 | a text option stores the very text, attached or following |
| OptionsRoundTrip.SelectsStem | vendor_util/src/parse_option.c:486-541 | a stem that fits one entry only stands for its name with everything behind the first `=`, or for its negation |
| OptionsRoundTrip.CountingSwitch | vendor_util/src/parse_option.c:309-311 | an option that counts goes up by one for each time it is said |
| OptionsRoundTrip.OperandStops | vendor_util/src/parse_option.c:586-592 | with STOP_AT_NON_OPTION the first operand ends the options and stays, with all behind it |
| OptionsRoundTrip.ArgumentIsKept | vendor_util/src/parse_option.c:456-465 | a plain argument stays in argv as it is |
| OptionsMistakes.FirstMistakeEnds | vendor_util/src/parse_option.c:262-663 | whatever was said before and comes after, the first mistake ends the program, and how depends on the mistake alone: unknown or ambiguous names, unknown letters, values that are missing, refused or not wanted, help and listings, one dash too few |
| OptionsMistakes.UnknownNameIsKept | vendor_util/src/parse_option.c:656-660 | with KEEP_UNKNOWN an unknown name stays in argv and changes nothing |
| OptionsMistakes.NextLetter | vendor_util/src/parse_option.c:594-627 | an unknown letter in a cluster ends the program, or with KEEP_UNKNOWN stays with what follows it after the switches before it took effect |
| OptionsMistakes.LongWords | vendor_util/src/parse_option.c:543-560 | a cluster looks like a long option exactly when it is `no-` and more, or three letters or more with which a long name begins |
| OptionsRoundTrip.ClusterAccepted | vendor_util/src/parse_option.c:594-627 | a cluster of known switches is accepted if and only if it is a single one or does not look like a long option |
| OptionsRoundTrip.NumbersAreSayable | vendor_util/src/parse_option.c:354-420 | every number that the variable can hold, negative ones too, can be said in decimal and, when unsigned, in 0x form; the limits are those of the C types |
| Numbers.DecimalRoundTrip | vendor_util/src/parse_option.c:354-420 | decimal text is always accepted and reads back if and only if the value fits the variable |
| Numbers.NegativeRoundTrip | vendor_util/src/parse_option.c:354-402 | negative decimal text is always accepted and reads back if and only if the value fits |
| Numbers.PrefixedHexRoundTrip | vendor_util/src/parse_option.c:370-420 | 0x text is always accepted and reads back if and only if the value fits |
| Numbers.BareHexRoundTrip | vendor_util/src/parse_option.c:381-385 | unprefixed hexadecimal reads back if and only if it has a letter or is below ten; without a letter it is accepted as decimal |
| NumberTexts.AcceptedTexts | vendor_util/src/parse_option.c:354-420 | a text is accepted if and only if it is empty or a decimal numeral or, for the unsigned kinds, a hexadecimal one: spaces, one sign, `0x` or `0X`, digits |
| NumberTexts.NumberOfNumeral | vendor_util/src/parse_option.c:354-420 | a numeral stands for its own number, fitted to 64 bits and cut down to the variable |
| NumberTexts.FittedIsExact | vendor_util/src/parse_option.c:354-420 | fitting changes a number if and only if the variable cannot hold it |
| CmdAction.Dispatch | cxl/src/cmd_parser.c:49-113 | parser and caller together select what the pure function says; all that is written, also when `all` is expanded, is in the slots that held the arguments: slot argc and those behind it stay |
| CmdAction.ChooseDevices | cxl/src/cmd_parser.c:58-113 | the two loops over the names compute the selection, reading only slots that hold strings |
| CmdAction.DeviceNames | cxl/src/cmd_parser.c:66-87 | a device name is `mem`, spaces or none, one sign or none, and a digit, whatever follows; nothing else is one |
| CmdAction.UsageExitExactly | cxl/src/cmd_parser.c:58-74 | the usage exit happens exactly when no name is valid, or exactly one bad name precedes `all` |
| CmdAction.DevicesChosen | cxl/src/cmd_parser.c:58-101 | the command acts on the device names in their order, each as often as given, or on both devices for `all` |
| CmdAction.OptionsDoNotSelect | cxl/src/cmd_parser.c:56-101 | options anywhere on the line do not change which devices are selected |
| CmdAction.MistakesSelectNothing | cxl/src/cmd_parser.c:56-58 | a mistake among the options keeps the command from acting on any device |
| CmdAction.OneBadNameIsWorseThanTwo | cxl/src/cmd_parser.c:60-74 | `x all` is refused and `x y all` accepted |
| StringBuffer.GrowthIsAmortised | vendor_util/inc/util.h:30-59 | the bytes moved by every sequence of requests up to a limit are at most twice the capacity if and only if the limit is at most WRAP_LIMIT + 1 |
| StringBuffer.CapacityIsLinear | vendor_util/inc/util.h:30-59 | the capacity covers the largest request and is at most 3/2 (request + 16) |
| StringBuffer.Strbuf.GrowthBounds | vendor_util/src/strbuf.c:50-56 | after any sequence of operations the capacity is linear in the largest request, and the bytes counted where realloc copies are at most twice the capacity while no request exceeded WRAP_LIMIT + 1; every operation says which request it adds |
| StringBuffer.SumWrapsExactly | vendor_util/src/strbuf.c:51-52 | the test in grow fires exactly when the sum exceeds a size_t |
| StringBuffer.Strbuf.Grow | vendor_util/src/strbuf.c:50-56 | contents are kept and capacity suffices; the NUL byte is in place afterwards exactly when it was before, or the heap happened to provide it on the first allocation |
| StringBuffer.Strbuf.Init | vendor_util/src/strbuf.c:28-33 | initialising with a hint reserves room but the NUL byte is there only if the heap provided it; a hint of -1 dies |
| StringBuffer.Strbuf.SetLen | vendor_util/inc/strbuf.h:71-77 | truncates or extends within the capacity and writes the NUL byte; the assertion fails exactly at the capacity |
| StringBuffer.Strbuf.AddCh | vendor_util/inc/strbuf.h:80-84 | appends one byte |
| StringBuffer.Strbuf.Add | vendor_util/src/strbuf.c:78-82 | appends the data |
| StringBuffer.Strbuf.Splice | vendor_util/src/strbuf.c:58-72 | replaces a stretch by the data despite the overlapping move; fails exactly outside the contents or beyond the address space |
| StringBuffer.Strbuf.Remove | vendor_util/src/strbuf.c:74-76 | removes a stretch |
| StringBuffer.Strbuf.Detach | vendor_util/src/strbuf.c:42-48 | hands over the contents and leaves a valid empty shell |
| StringBuffer.PrefixCmp | vendor_util/src/strbuf.c:13-19 | 0 exactly for a prefix, else the difference at the first mismatch |
| DdrStats.ChunksTile | cxl/src/cxl_cmd.c:1589-1599 | the requests tile the buffer, each at most 16384 bytes, and are as few as possible |
| DdrStats.DownloadAll | cxl/src/cxl_cmd.c:1589-1602 | without a negative code all chunks are requested and the buffer is known byte by byte; otherwise the loop stops at the first negative code |
| DdrStats.DdrStatsGet | cxl/src/cxl_cmd.c:1561-1615 | return code, requests and displayed bytes on every path |
| DdrStats.RightIffAllChunksOk | cxl/src/cxl_cmd.c:1597-1601 | the buffer is right for every heap if and only if all chunks returned 0 |
| DdrStats.RecordsAreIntact | cxl/src/cxl_cmd.c:1580-1609 | the downloaded bytes hold every displayed record, also across chunks, if and only if their size fits in an int |
| DdrStats.NoRecordOfManyLoops | cxl/src/cxl_cmd.c:1580-1609 | with records of 1376 bytes and 2^27 loops nothing is downloaded, not even record 0 |
| DdrStats.GetChunk | vendor_meta/src/vendor_commands.c:1205-1221 | a chunk is copied only after return code 0 |
| Uuid.Unparse | vendor_util/src/parse_option.c:52-67 | writes the five-group lower-case text and a NUL, nothing else |
| Uuid.WholeText | vendor_util/src/parse_option.c:59-65 | the byte loop with its dashes yields the 36-character form |
| Uuid.Parse | vendor_util/src/parse_option.c:69-90 | for every text that is not read beyond its end: reads all bytes when the dashes are in place, otherwise stops at the first missing one with the bytes so far |
| Uuid.ReadsOnlyTheText | vendor_util/src/parse_option.c:75-88 | the loop stays within the text and its NUL if and only if these are 36 characters or more or a dash is missing before the end |
| Uuid.ShortTexts | vendor_util/src/parse_option.c:75-88 | the empty text and `1234` are read beyond their end, eight digits are not |
| Uuid.ParseOfText | vendor_util/src/parse_option.c:52-90 | parsing the text of any sixteen bytes returns them |
| Uuid.TextOfParsed | vendor_util/src/parse_option.c:52-90 | printing a parsed well-formed UUID returns its lower-case form |
| Uuid.AnyByte | vendor_util/src/parse_option.c:84-88 | a byte of any text: the value of the longest number at the front of its two characters, and 0 without one |
| HexString.IntToString | cxl/src/dimm_mgmt.c:1012-1027 | the two in-place passes write the upper-case text and a NUL, for up to 127 bytes |
| HexString.BothPassesEnd | cxl/src/dimm_mgmt.c:1013-1020 | the second pass with its 8-bit index ends if and only if there are at most 127 bytes |
| HexString.DecodeOfText | cxl/src/dimm_mgmt.c:1012-1027 | decoding the text of any bytes returns them |
| HexString.TextOfDecoded | cxl/src/dimm_mgmt.c:1012-1027 | every upper-case text of even length is the text of what it decodes to |

## Left out

- The wire layer: `arm_cci_request`, `send_cmd_cci`, payload layouts and the byte count that the vendor wrapper copies; requests are records of action, slot, offset and data.
- The return-code and extended-status fields of the background status: the update loop never reads them.
- The `open`, `fread`, `sleep` and sysfs calls: the file is a given byte sequence and failures are parameters.
- Failure of `realloc` in the buffer, whose result the original does not check; `strbuf_addf` and `strbuf_read`.
- Data that points into the buffer it is added to: the data of `Add` and `Splice` is a value.
- Display code, help texts, the wording of error messages and which two options an ambiguity message names; these exits are tags.
- The file-name prefix of `fix_filename`: the prefix is always null in this repository.
- The endpoint loop in `cmd_action`, which depends on a macro of libcxlmi that is not part of this model.
- OrderMattersExactlyOnClash: requires names without `=`; tables that have one are covered by `OrderMattersExactlyOnConflict` and `ConflictsAreInForms`.
- Parse: requires a text that is not read beyond its end, because what lies behind it is unknown; `ReadsOnlyTheText` proves that bound exact.
- ParseOptions: requires an argv with at least the command's own name, as every caller passes it; the original runs off the array without one.
- IntToString: requires at most 127 bytes, because the original does not end for more; `BothPassesEnd` proves that bound exact.
- Incr: an overflowing counter wraps around here, while C leaves it undefined; no table uses the kind.
