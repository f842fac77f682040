# HydraFW: a verified model of its bit-stream and protocol kernels

HydraFW drives a HydraBus board. This project models the parts of it that are complete
algorithms with only a bit, byte or call stream between them and the hardware, and proves
what they do for every environment: JTAG chain discovery, the hex-to-DFU converter, the
NFC card emulations and the protocol under them, the ISO-DEP reader's chaining, the SUMP
logic analyser, the SLCAN text form, the answer-to-reset reader and the cycle counter.

`dafny verify dfyconfig.toml` checks everything.

## How the model is built

- Code that changes state step by step is a method, over a class where the source keeps
  fields or statics, proved against functions on values; lemmas then say what those
  functions mean over whole runs.
- The environment is a parameter. `Pins` runs the JTAG code against any circuit
  (`Env`); `Tap` supplies one, a scan chain of any number of TAP controllers as
  IEEE 1149.1 describes them (clauses 6, 10 and 12), each device with its own
  instruction register length and identification register. The NFC library, the
  contactless card, the sample stream, the smart card and the files are sequences of
  whatever they answer.
- Machine widths are explicit where they matter: `bv32` in the CRC, one-byte offsets and
  unsigned wrap in the reader, modulo 2^64 in the cycle counter, 32-bit wrap in the test
  for `-c`.
- Laws of division, of words as runs of bits and of pulse trains are proved once over an
  abstract register (`Division`, `Registers`) and an abstract circuit (`Pins`), which
  keeps the proofs small.

| file | what it models |
|---|---|
| Bits, Bytes, Memory | byte reversal of `common.c`, single bits and bit strings as numbers; bytes, copying, hexadecimal digits, C strings; memory written piece by piece |
| Registers, Words | registers as runs of bits; 32-bit words received bit by bit, and the word reversal of `common.c` |
| Pins, Tap, Jtag, Idcode, TapShift | the pins, the scan chain, both scans, the TAP_SHIFT command |
| Division, Crc32 | reflected polynomial division, the table-driven CRC-32 (section 8 of RFC 1952) |
| Ihex, IhexText | the Intel HEX loader; what well-formed and bad files mean to it |
| Dfuse, DfuFile, Hex2dfu | padding and `-c`; the DfuSe file and its reader; the conversion as a whole |
| ListenMode, Ultralight, Type4 | the listen states; the Ultralight memory; the Type 4 files |
| CardEmu, CardRun | `ce.c` and `ceRun` with either command handler; what every run of events and every session keeps |
| Reader | ISO-DEP chaining (sections 7.5.2 and 7.5.3 of ISO/IEC 14443-4) |
| Sump, Slcan, Atr, CycleCounter | the smaller kernels |

## Where the code decides

Several statements that one would expect do not hold of the code as written. The model
keeps the code, and the lemma named gives the exact line.

- A HEX file whose end record is its unterminated last line is refused, because the length
  of the line end is always subtracted (`IhexText.UnendedEndRecord`); any unterminated
  line is accepted only when its checksum byte is zero (`IhexText.UnendedLine`). The line
  buffer holds 511 characters, so records of 250 data bytes and more are cut;
  `IhexText.DataRecordRead` says for every length when one is still loaded as written, and
  250 zeros at address 0 are not (`IhexText.ZerosRefused`).
- A record below the first data address, or more than one growth step past the buffer, is
  stored outside of it; `Ihex.Placed` is the condition, and `Ihex.Ihex2binBuf` answers
  `OutOfBounds` exactly when it fails or when a line or a byte count runs past its buffer.
- `-c` with an address below the image is taken as a request all the same, and for an image
  that ends below address 256 the unsigned test wraps and takes addresses above it too:
  64 bytes at address 0 with `-c 1000` (`Dfuse.RequestedIsInside`, `RequestedOutside`).
- `send_apdu` keeps its offset in one byte: the blocks carry the APDU exactly when the
  last of them starts below 256 (`Reader.SentIsApdu`). The command buffer has 260 bytes,
  so only APDUs of 257 bytes or more can be hit.
- SUMP read-back with no delay count loses the oldest slot to the matching sample
  (`Sump.MatchReadBack`), and past 8192 samples it repeats itself
  (`Sump.ReadBackRepeats`); `Sump.ReadsBackExactly` is the exact bound. The format strings
  `"%c\x00\x00\x00"` end at their first zero byte, so the zero padding in them is never
  sent: one byte goes out per sample, two when both channel groups are on.
- The ATR reader looks at the parity of protocols and skips a TD1 directly behind T0, so
  it can leave a checksum in the line; `Atr.LengthAgrees` is the exact condition.
- `can_slcan_in` keeps the -1 of `sscanf` in an unsigned byte, so a frame is also accepted
  when nothing follows its letter (`Slcan.AcceptedExactly`). `slcan_read_command` stores
  the carriage return and no zero behind it, and the scanner skips it as white space: after
  a letter alone it is what an earlier command left in the buffer that is scanned, so `t`
  over a buffer that goes on with `2320` sends identifier 0x232 (`Slcan.BareLetter`,
  `Slcan.StaleFrame`).
- MSB first, the IDCODE test for the lowest bit looks at the other end of the code, and a
  device without a code shifts all words behind it by one bit; `Idcode.EndShows` is
  exactly when the scan still stops at the end of the run of codes, and
  `Idcode.HiddenEnd` a chain of two devices for which it does not.
- The console command for a high TCK leaves it high, and openOCD mode sets no pin up when it
  is entered: the first pulse of the next TAP_SHIFT is then a falling edge alone, and one
  pulse less is driven than was asked for (`TapShift.Run`;
  `src/hydrabus/hydrabus_mode_jtag.c:302` and `:893-894`).
- After a TS that is not standard the reader stores up to eight more bytes but shows as many
  bytes as it got from TS on, so the last one is left out (`Atr.GetAtr`).
- A failed SELECT closes the Type 4 application but not its file
  (`Type4.FailedSelectKeepsFile`); a READ past the end of a file has no defined answer.
- Before activation `ceGetRx` copies as many bytes as the library received bits; with the
  259 bytes of its receive buffer a frame of whole bytes has a defined outcome only up to
  32 bytes (`CardRun.FrameFits`).
- A halt that `ceHandler` sees itself leaves a pending compatibility write pending
  (`CardRun.Forgets`, `CardRun.PendingAfter`).
- `ceStart` without `ceInit` before it does not put `isFirstA3_Frame` back
  (`CardRun.StartAlone`); every session of the firmware does call both.

## Model

| member | source | states |
|---|---|---|
| Bits.ReverseU8Bits | src/common/common.c:495-500 | bit i of the reversal is bit 7 - i, and reversing twice gives the byte back |
| Words.ReverseU32Or | src/common/common.c:510-517 | the word reversal treats every bit on its own |
| Words.ReverseU32Bit | src/common/common.c:510-517 | it sends bit i to bit 31 - i |
| Words.ReverseU32Twice | src/common/common.c:510-517 | it undoes itself |
| Words.ReverseWord | src/common/common.c:510-517 | for every run of 32 bits the five steps of masks and shifts give the word of those bits in the opposite order |
| Words.WordBit | src/hydrabus/hydrabus_mode_jtag.c:391-393 | bit j of a word received is the bit received j-th |
| Words.ReversedWordBit | src/common/common.c:510-517 | after the five steps it is the one received j-th from the last |
| Words.WordOfSnoc | src/hydrabus/hydrabus_mode_jtag.c:391-393 | or-ing the next bit shifted to its place puts it on top of the word received so far |
| Pins.Master.ClkHigh | src/hydrabus/hydrabus_mode_jtag.c:209-216 | a rising edge with TMS and TDI as they stand, and nothing when TCK is high already |
| Pins.Master.ClkLow | src/hydrabus/hydrabus_mode_jtag.c:218-225 | a falling edge, and nothing when TCK is low already |
| Pins.Master.SendBit | src/hydrabus/hydrabus_mode_jtag.c:261-274 | one full pulse with the given TMS and TDI, for any circuit on the pins; when TCK is high already, its falling edge only |
| Pins.Master.ReadBitClock | src/hydrabus/hydrabus_mode_jtag.c:283-290 | the level returned is TDO between the rising and the falling edge of the pulse, or before the falling edge alone when TCK is high already |
| Pins.Master.ReadU32 | src/hydrabus/hydrabus_mode_jtag.c:385-400 | 32 pulses; bit j of the word is the TDO level read j-th, and in MSB-first mode bit 31 - j |
| Pins.DriveConcat | src/hydrabus/hydrabus_mode_jtag.c:261-290 | a pulse train acts as its parts in turn, on the circuit and on the levels seen |
| Tap.ShiftDr | src/hydrabus/hydrabus_mode_jtag.c:255-290 | in Shift-DR a pulse moves the joined data registers of all devices by one bit towards TDO |
| Tap.ShiftIr | src/hydrabus/hydrabus_mode_jtag.c:409-420 | the same for the joined instruction registers |
| Tap.UpdateIr | src/hydrabus/hydrabus_mode_jtag.c:417-424 | joined instruction registers full of ones select BYPASS in every device |
| Jtag.ResetState | src/hydrabus/hydrabus_mode_jtag.c:292-300 | whatever states the controllers are in, also different ones, and whichever level TCK has, all devices end in Test-Logic-Reset with their reset instruction |
| Jtag.ToShiftIR | src/hydrabus/hydrabus_mode_jtag.c:410-415 | five pulses lead from reset to Shift-IR in every device |
| Jtag.FillIR | src/hydrabus/hydrabus_mode_jtag.c:417-421 | 1000 ones fill every instruction register when these total at most 1000 bits, the last pulse leaving Shift-IR |
| Jtag.ToShiftDR | src/hydrabus/hydrabus_mode_jtag.c:423-427 | the next pulses latch BYPASS and show one zero per device |
| Jtag.AllToBypass | src/hydrabus/hydrabus_mode_jtag.c:407-432 | the script up to the reads puts every device in BYPASS with zeros in the path |
| Jtag.BypassReads | src/hydrabus/hydrabus_mode_jtag.c:434-437 | the path then reads as one zero per device and ones after them |
| Jtag.CountZeros | src/hydrabus/hydrabus_mode_jtag.c:434-437 | the loop stops at the first one read or at the cap, every read before it being zero |
| Jtag.ScanBypass | src/hydrabus/hydrabus_mode_jtag.c:402-441 | from any TAP states and either level of TCK, for any chain of n devices with at most 1000 instruction bits: every device is in BYPASS, and the result is n below 32 and 0 from there on |
| Idcode.ResetToShiftDR | src/hydrabus/hydrabus_mode_jtag.c:448-454 | after reset the data path is the devices' identification or bypass registers in order |
| Idcode.WindowBit | src/hydrabus/hydrabus_mode_jtag.c:385-400 | bit j of the n-th word read is bit 32 n + j of that path, then of the zeros on TDI |
| Idcode.ReceivedTests | src/hydrabus/hydrabus_mode_jtag.c:457 | in either bit order a word passes both tests exactly when its bits are not all ones and the bit that then comes lowest is set |
| Idcode.AnsweringWord | src/hydrabus/hydrabus_mode_jtag.c:456-461 | each word of the run of answering devices is bit by bit the code of its device, MSB first turned around, and passes both tests |
| Idcode.EndWord | src/hydrabus/hydrabus_mode_jtag.c:456-461 | the word behind the run is refused exactly when the end of the run shows: always LSB first; MSB first unless a device without a code is followed by a register whose bit 30 is set |
| Idcode.EndAlwaysShows | src/hydrabus/hydrabus_mode_jtag.c:456-461 | LSB first, and MSB first when every device has a code, it shows |
| Idcode.CountIdcodes | src/hydrabus/hydrabus_mode_jtag.c:456-462 | the loop accepts the words that a circuit shows one by one and stops at the first that fails a test, or at the cap |
| Idcode.ScanIdcode | src/hydrabus/hydrabus_mode_jtag.c:443-463 | for any chain, either bit order and either level of TCK: the words found are those of the path up to the first refused or the 32nd; they begin with the codes of the run of answering devices from the TDO end, bit j of a word being bit j of the code, or MSB first bit 31 - j, and are no more than these exactly when the end of the run shows |
| Idcode.PrintIdcodes | src/hydrabus/hydrabus_mode_jtag.c:465-483 | the same without the cap: the words printed begin with the codes of the whole run, bit by bit, and are exactly these when its end shows |
| Idcode.FoundBits | src/hydrabus/hydrabus_mode_jtag.c:456-482 | every word found, also behind the run, has the bits of the path at its place, then the zeros on TDI |
| Idcode.HiddenEnd | src/hydrabus/hydrabus_mode_jtag.c:456-461 | MSB first, a device without a code before one whose bit 30 is set: none answers, and a word is accepted all the same; LSB first it is not |
| TapShift.OcdShiftU8 | src/hydrabus/hydrabus_mode_jtag.c:621-642 | from either level of TCK the pulses given by the two bytes are driven in order, less the rising edge of the first when TCK is high, and the levels come back with the last one in the top bit |
| TapShift.ShiftAll | src/hydrabus/hydrabus_mode_jtag.c:735-744 | the loop over the byte pairs drives the pulses left, from either level of TCK, and packs the levels group by group |
| TapShift.Run | src/hydrabus/hydrabus_mode_jtag.c:727-744 | for every big-endian count and either level of TCK: circuit, edges and levels are those of the pulses in the buffer, which are all driven exactly when TCK was low or the count is zero; the bytes consumed are two per started group of eight, the answer is the header and the packed levels |
| TapShift.AllDriven | src/hydrabus/hydrabus_mode_jtag.c:283-290 | a train of pulses that starts with TCK high drives one pulse less than it has, and one that starts with TCK low drives all |
| TapShift.BytesForIs | src/hydrabus/hydrabus_mode_jtag.c:734 | the number of groups is the count over eight, rounded up |
| TapShift.PulseAt | src/hydrabus/hydrabus_mode_jtag.c:736-741 | pulse 8 g + k takes TDI from bit k of byte 2 g and TMS from bit k of the byte after it |
| TapShift.LevelAt | src/hydrabus/hydrabus_mode_jtag.c:636-641 | level 8 g + k comes back in bit k of byte g, moved to the top in a short last group |
| Crc32.TableEntry | src/build-scripts/hex2dfu.c:527-571 | every entry of the table is eight division steps of its index by 0xEDB88320 |
| Division.PeelN | src/build-scripts/hex2dfu.c:574-584 | adding a byte to the register and stepping eight times is dividing its bits in one by one |
| Crc32.TableStep | src/build-scripts/hex2dfu.c:580-581 | one look-up, whatever the register, is eight steps of the division |
| Crc32.TableByteDivides | src/build-scripts/hex2dfu.c:580-581 | the loop body divides one byte into the register bit by bit |
| Crc32.Crc32 | src/build-scripts/hex2dfu.c:574-584 | for every seed and buffer the table-driven loop is the bit-by-bit reflected division, complemented on both sides |
| Crc32.CheckValue | src/build-scripts/hex2dfu.c:574-584 | the published checksum of the letter a |
| Crc32.CrcConcat | src/build-scripts/hex2dfu.c:195-196 | the checksum of a concatenation is that of its second part seeded with that of the first |
| Crc32.Residue | src/build-scripts/hex2dfu.c:262-267 | running on over the register's own four bytes leaves the register zero |
| Ihex.Hex2bin | src/build-scripts/hex2dfu.c:382-410 | the front of the buffer becomes the bytes spelt up to the first character that is no digit, the rest stays |
| Bytes.DigitIs | src/build-scripts/hex2dfu.c:386-404 | the digits are those of the two letter cases and nothing else |
| Ihex.CheckChecksum | src/build-scripts/hex2dfu.c:412-418 | the low byte of the sum of the first len bytes |
| Ihex.ReadLine | src/build-scripts/hex2dfu.c:435-446 | a line leaves its bytes over the old buffer, and is classified by what is then there |
| Ihex.Realloc | src/build-scripts/hex2dfu.c:459-468 | the grown buffer keeps what the old one held |
| Ihex.Memmove | src/build-scripts/hex2dfu.c:471 | the bytes land at the position, all others stay |
| Ihex.Store | src/build-scripts/hex2dfu.c:457-474 | a chunk that fits after at most one growth step joins the memory held, later bytes winning, and the length is the highest extent; it fails exactly when it does not fit |
| Ihex.DataRecord | src/build-scripts/hex2dfu.c:446-474 | the first data record sets the start address, and a record is stored unless it lies before it or past the grown buffer |
| Ihex.ReadFile | src/build-scripts/hex2dfu.c:434-484 | the chunks stored are those of the file up to the record that ends reading |
| Ihex.Ihex2binBuf | src/build-scripts/hex2dfu.c:422-487 | every outcome of the loader: the image, its start and length, a bad checksum, a missing end record, or stores outside the buffer, each exactly when the file says so |
| Memory.LastWriterWins | src/build-scripts/hex2dfu.c:471 | an address holds the byte of the last record that covers it |
| Memory.UncoveredIsUntouched | src/build-scripts/hex2dfu.c:471 | and nothing exactly when no record covers it |
| IhexText.ExtentIsHighest | src/build-scripts/hex2dfu.c:472-474 | the length is an upper bound of all extents, met by one of them |
| IhexText.FirstGrowth | src/build-scripts/hex2dfu.c:459-468 | the buffer of 128 kB is kept exactly while the image does not pass it |
| IhexText.HexRoundTrip | src/build-scripts/hex2dfu.c:382-410 | decoding inverts every spelling in hexadecimal, of either letter case digit by digit, up to the line end |
| IhexText.HexSpells | src/build-scripts/hex2dfu.c:382-410 | two upper-case digits a byte are such a spelling, so every record can be written |
| IhexText.RecordRead | src/build-scripts/hex2dfu.c:435-439 | a record line of any length and end: at most 255 of its bytes are taken, and it is refused exactly when those summed, at most 254 and without a line end one less, do not give zero |
| IhexText.UnendedLine | src/build-scripts/hex2dfu.c:436-438 | without a line end a line with the right checksum is refused unless that byte is zero |
| IhexText.DataRecordRead | src/build-scripts/hex2dfu.c:424-447 | a terminated data record with the right checksum, of any length: up to 249 bytes it is loaded as written, with 250 and 251 exactly when its first 254 bytes sum to zero, with 252 when besides its last byte is what the raw buffer held there, with more never |
| IhexText.ZerosRead | src/build-scripts/hex2dfu.c:436-439 | a record of 250 zeros or more is refused, with the right checksum and line end, unless its count and address bytes sum to zero |
| IhexText.ZerosRefused | src/build-scripts/hex2dfu.c:436-439 | so 250 zeros at address 0 are refused |
| IhexText.UnendedEndRecord | src/build-scripts/hex2dfu.c:436-438 | so a file ending in an unterminated end record is refused, whatever well-formed lines come before it |
| IhexText.EntryRead | src/build-scripts/hex2dfu.c:439-447 | data, linear address and other records, and remarks of one line, are recognised as what they are, whatever the buffer held before; above 249 bytes when the summed bytes give zero |
| IhexText.EntriesRead | src/build-scripts/hex2dfu.c:434-484 | well-formed lines below the limit, each with its own letter case and line end, give exactly the chunks they say, and what follows is read from the state they leave |
| IhexText.FileRead | src/build-scripts/hex2dfu.c:434-484 | such a file with an end record is read to that record, whatever comes after it |
| IhexText.BadLineRejects | src/build-scripts/hex2dfu.c:477-481 | a line of any length whose summed bytes do not give zero, before any end record, rejects the file |
| IhexText.WellFormedFileLoads | src/build-scripts/hex2dfu.c:422-487 | the whole loader on such a file: it succeeds, each covered address holds the byte of the last record over it, and the length is the highest extent |
| IhexText.LimitRead | src/build-scripts/hex2dfu.c:453-456 | a data record at or above the limit ends reading, whatever follows |
| IhexText.LimitedFileLoads | src/build-scripts/hex2dfu.c:448-456 | the loader then succeeds with what came before, and without anything before it the start address is that of the record |
| Dfuse.Word32OfLe32 | src/build-scripts/hex2dfu.c:174-177 | four little-endian bytes give back the low 32 bits |
| Dfuse.Le32Bytes | src/build-scripts/hex2dfu.c:174-177 | the digits of a number in base 256, lowest first |
| Dfuse.RequestedIsInside | src/build-scripts/hex2dfu.c:172-173 | for every start, length and address: a requested checksum lies in the buffer exactly when its address is not below the image and, where the unsigned test wraps, not past its end |
| Dfuse.RequestedOutside | src/build-scripts/hex2dfu.c:172-173 | inputs for both ways out: 64 bytes at 0 with -c 1000, and an address below the image |
| Dfuse.PlaceCrc | src/build-scripts/hex2dfu.c:173-201 | the word placed is the checksum of the final image with those four bytes cut out, the next four are the length, and nothing else changes |
| DfuFile.Assemble | src/build-scripts/hex2dfu.c:204-267 | the zeroed buffer ends up as prefix, target, element, image and suffix, then the raw register over all of them; what these say, the label among it, is in the rows below |
| DfuFile.Uncomplemented | src/build-scripts/hex2dfu.c:262 | the expression around the last checksum takes its final complement back |
| DfuFile.FileResidue | src/build-scripts/hex2dfu.c:262-266 | the checksum loop over the whole file leaves the raw register at zero |
| DfuFile.ReadBack | src/build-scripts/hex2dfu.c:203-267 | for every image and header, reading the file by its own length fields, checking its signatures and checksum, gives back the address, the image, the alternate setting, the three identifiers and a name that is the label given, its first 254 characters, or "EncedoKey" without one |
| DfuFile.TargetBack | src/build-scripts/hex2dfu.c:222-250 | the target is read back by its own size and element count, with the label given or the default one |
| DfuFile.NameRead | src/build-scripts/hex2dfu.c:222-229 | the name field read as a text is the label up to 254 characters, or the nine letters of the default |
| DfuFile.Signatures | src/build-scripts/hex2dfu.c:207-260 | the signatures and fixed bytes of every file |
| Hex2dfu.PaddingFits | src/build-scripts/hex2dfu.c:169 | rounding the length up to eight never leaves the buffer, whose sizes are multiples of eight |
| Hex2dfu.RequestServed | src/build-scripts/hex2dfu.c:167-173 | the same condition for whatever records the loader holds |
| Hex2dfu.Convert | src/build-scripts/hex2dfu.c:167-267 | from lines to file, for every file: which outcome follows from how reading ended, whether anything was said and whether the place that -c asks for is in the buffer, so when a file is made, when there is none and why; a file made is that of the padded memory of the records, with length and checksum placed where -c asked |
| Hex2dfu.MadeExactly | src/build-scripts/hex2dfu.c:167-267 | when a file is made, and when a wrong checksum or a missing end record is reported, in terms of how reading ended |
| Hex2dfu.FileCarries | src/build-scripts/hex2dfu.c:203-267 | read back, a file made has one element at the address of the first record, each covered byte that of the last record over it, but for the eight bytes that -c asks for, and the label or default name |
| Hex2dfu.WellFormedConverts | src/build-scripts/hex2dfu.c:167-267 | a well-formed HEX file, with or without -c, converts exactly when it says anything and that place, if asked for, is in the buffer, and its DFU file read back gives what its records say |
| Ultralight.ReadRollsOver | src/hydranfc_v2/hydranfc_v2_ce.c:117-124 | with the twelve-byte copy behind the image, sixteen bytes from page p are pages p to p + 3 modulo 16 |
| Ultralight.Card.ResetImage | src/hydranfc_v2/hydranfc_v2_ce.c:150-153 | the factory pages are back, with their copy behind them |
| Ultralight.Card.ReadImage | src/hydranfc_v2/hydranfc_v2_ce.c:173-198 | a file of 64 bytes replaces the bytes that arrive, and the copy is made again |
| Ultralight.Card.Write | src/hydranfc_v2/hydranfc_v2_ce.c:446-469 | data pages are overwritten, page 3 gains bits, page 2 takes the command without effect, others refuse, the copy staying equal |
| Ultralight.Card.ProcessCmdMifUL | src/hydranfc_v2/hydranfc_v2_ce.c:360-507 | memory, pending page and reply are those of the sixteen-page tag, also when command and response are one buffer, whose other bytes stay; what the tag answers is in the rows below |
| Ultralight.Card.Command | src/hydranfc_v2/hydranfc_v2_ce.c:422-493 | the switch on the command byte does to memory, pending page and reply what the tag does |
| Ultralight.Card.CwriteData | src/hydranfc_v2/hydranfc_v2_ce.c:391-421 | so does the second part of a compatibility write |
| Ultralight.RunKeeps | src/hydranfc_v2/hydranfc_v2_ce.c:360-507 | over every sequence of frames pages 0 to 2 never change and the bits of page 3 only go from 0 to 1 |
| Ultralight.OnlyWritesChange | src/hydranfc_v2/hydranfc_v2_ce.c:391-469 | memory changes only by a six-byte WRITE, or by sixteen bytes while a compatibility write waits |
| Ultralight.PendingOnlyAfterCwrite | src/hydranfc_v2/hydranfc_v2_ce.c:368-373 | one waits exactly after a CWRITE that was acknowledged |
| Ultralight.CompatibilityWrite | src/hydranfc_v2/hydranfc_v2_ce.c:391-486 | CWRITE and sixteen bytes have the image and the reply of WRITE of the first four; any other next frame clears the pending page and leaves the image |
| Ultralight.WrittenPage | src/hydranfc_v2/hydranfc_v2_ce.c:399-415 | a write reaches its own page only, with the bytes given or their union with the old bits |
| Ultralight.ReadAnswers | src/hydranfc_v2/hydranfc_v2_ce.c:422-438 | READ p answers pages p to p + 3 modulo 16 as they are, and changes nothing |
| Ultralight.WriteAnswered | src/hydranfc_v2/hydranfc_v2_ce.c:446-469 | six bytes from A2 on: pages 2 to 15 are answered 1010 without a reset, any other 0000 with one; page 4 and up take the four bytes, page 3 the union, nothing else changes |
| Ultralight.CwriteAnswered | src/hydranfc_v2/hydranfc_v2_ce.c:470-486 | A0 and a page: the same answers, and the page waits for its data |
| Ultralight.DataAnswered | src/hydranfc_v2/hydranfc_v2_ce.c:391-421 | sixteen bytes then: the same answers, and the first four are written |
| Ultralight.NoDataAnswered | src/hydranfc_v2/hydranfc_v2_ce.c:384-421 | any other length is refused with the memory as it was, and the halt is silent |
| Ultralight.OthersAnswered | src/hydranfc_v2/hydranfc_v2_ce.c:422-493 | wrong lengths and pages are refused, unknown commands put the tag to sleep, and outside the two active states nothing is answered |
| Ultralight.ReadBytes | src/hydranfc_v2/hydranfc_v2_ce.c:422-438 | byte i of the answer to READ is byte 4 p + i of the memory, modulo 64 |
| Ultralight.ReadAfterWrite | src/hydranfc_v2/hydranfc_v2_ce.c:422-469 | a page from 4 on that was written is what the next READ of it begins with |
| Type4.CmdFind | src/hydranfc_v2/hydranfc_v2_ce.c:205-214 | whether the pattern starts anywhere in the first twenty bytes |
| Type4.Card4.T4Select | src/hydranfc_v2/hydranfc_v2_ce.c:217-252 | state, selected file and status are those of the specification |
| Type4.Card4.ReadBinary | src/hydranfc_v2/hydranfc_v2_ce.c:255-282 | the bytes of the file from the offset on, as many as asked for and there are, then 90 00; undefined exactly past the end |
| Type4.Card4.UpdateBinary | src/hydranfc_v2/hydranfc_v2_ce.c:285-310 | the NDEF file takes the bytes at the offset when it is selected and they fit |
| Type4.Card4.ProcessCmd | src/hydranfc_v2/hydranfc_v2_ce.c:314-357 | every command is that of the specification, also over one shared buffer; the capability container is never written |
| Type4.FileNeedsApp | src/hydranfc_v2/hydranfc_v2_ce.c:228-246 | in every run without a SELECT of the application no file is selected and the NDEF file stays |
| Type4.SelectedBySelect | src/hydranfc_v2/hydranfc_v2_ce.c:228-250 | a file becomes selected only by a SELECT while the application is open, which the last SELECT's status tells |
| Type4.SelectByName | src/hydranfc_v2/hydranfc_v2_ce.c:229-243 | SELECT of the application and then of a file by its identifier opens that file, from every state |
| Type4.CcDescribesFiles | src/hydranfc_v2/hydranfc_v2_ce.c:84-105 | the container, read whole after any run, tells its own size, and a SELECT by the identifier in it opens a file of the size in it |
| Type4.FailedSelectKeepsFile | src/hydranfc_v2/hydranfc_v2_ce.c:244-246 | a failed SELECT leaves the file selected: every READ and UPDATE after it does and answers what it would have without it |
| Type4.FileOpens | src/hydranfc_v2/hydranfc_v2_ce.c:217-252 | from any state 00 A4 with the name D2760000850101 and then 00 A4 00 0C 02 with E103, E104 or 0001 are answered 90 00 and open the container or the NDEF file |
| Type4.UpdateBytes | src/hydranfc_v2/hydranfc_v2_ce.c:285-310 | 00 D6, a big-endian offset, a length and data: these bytes of the file become the data and no other, answered 90 00 |
| Type4.ReadAfterUpdate | src/hydranfc_v2/hydranfc_v2_ce.c:255-310 | 00 B0 with the same offset and length then answers the data and 90 00 |
| Type4.Refusals | src/hydranfc_v2/hydranfc_v2_ce.c:244-357 | what is answered 6A 82, 62 82 and 68 00, with nothing changed, and that outside of card emulation nothing is answered |
| Type4.RunBytes | src/hydranfc_v2/hydranfc_v2_ce.c:285-310 | after any run each byte of the NDEF file is that of the last successful UPDATE over it |
| Type4.ReadAfterRun | src/hydranfc_v2/hydranfc_v2_ce.c:255-282 | READ inside the NDEF file answers min(Le, size - offset) such bytes and 90 00 |
| Type4.CcKept | src/hydranfc_v2/hydranfc_v2_ce.c:314-357 | no run of commands changes the capability container |
| Type4.ReadCcAfterRun | src/hydranfc_v2/hydranfc_v2_ce.c:255-282 | READ of the capability container answers after every run what it held before |
| CardEmu.Emulator.Init | src/hydranfc_v2/ce.c:81-115 | all flags and the pending page are back at their start |
| CardEmu.Emulator.Start | src/hydranfc_v2/ce.c:437-446 | listening starts, and of the flags only the enabling one changes, also when the library refuses |
| CardEmu.Emulator.Stop | src/hydranfc_v2/ce.c:449-454 | listening stops and the flags are back at their start |
| CardEmu.Emulator.Relisten | src/hydranfc_v2/ce.c:235-239 | listening starts again at the first frame, and the pending page is forgotten |
| CardEmu.Emulator.Handler | src/hydranfc_v2/ce.c:129-319 | flags and library calls, for every listen state and answer; which ones is in the rows CardRun.HandlerCalls and HandlerFlags |
| CardEmu.Emulator.GetRx | src/hydranfc_v2/ce.c:456-545 | flags, calls, result and the bytes delivered, for every answer; as many bytes are copied as the length says, which counts bits before activation, and the outcome is undefined when that leaves a buffer |
| CardEmu.Emulator.SetTx | src/hydranfc_v2/ce.c:600-689 | flags, calls, result and the reply handed over, for every answer |
| CardEmu.Emulator.TransmitAndSleep | src/hydranfc_v2/ce.c:624-659 | a negative reply is sent to its end, then the emulation sleeps at the first frame with nothing pending |
| CardEmu.Emulator.TransmitBlocking | src/hydranfc_v2/ce.c:638-649 | one start of a transceive, then one request for its status per poll until the library has sent |
| CardEmu.Emulator.Process | src/hydranfc_v2/hydranfc_v2_ce.c:561 | the handler in current_processCmdPtr, either one, over the shared buffer: memories, pending page, reply and reset, the rest of the buffer staying, or no outcome past the end of a file |
| CardEmu.HandlersMean | src/hydranfc_v2/hydranfc_v2_ce.c:314-357 | the answer of the Type 4 handler goes out as whole bytes, with a reset in the two active states only; the Ultralight handler is the tag |
| CardEmu.Emulator.Turn | src/hydranfc_v2/hydranfc_v2_ce.c:538-587 | one turn of ceRun over the one buffer is reception, handler and transmission of the specification in sequence, with either handler, and leaves the buffer as it says |
| CardRun.LegalMeans | src/hydranfc_v2/ce.c:229-231 | what the order of calls is meant to be: before each request for the status, a start of a transceive with no start of listening between |
| CardRun.HandlerKeeps | src/hydranfc_v2/ce.c:129-319 | the handler keeps that order, whatever the library answers |
| CardRun.GetRxKeeps | src/hydranfc_v2/ce.c:456-545 | so does ceGetRx |
| CardRun.SetTxKeeps | src/hydranfc_v2/ce.c:600-689 | so does ceSetTx, with its blocking loop |
| CardRun.HandlerCalls | src/hydranfc_v2/ce.c:129-319 | for each call of the handler exactly when it is made: among them the start of an activation on a RATS with level 4, and sleep or idle on one without |
| CardRun.HandlerFlags | src/hydranfc_v2/ce.c:129-319 | and for each flag when it is set afterwards |
| CardRun.Deliveries | src/hydranfc_v2/ce.c:456-545 | when ceGetRx delivers, with how many bytes, and when it starts listening again |
| CardRun.Replies | src/hydranfc_v2/ce.c:600-689 | through which call ceSetTx sends, when it sleeps, its result and what is left waiting |
| CardRun.ActivatedExchange | src/hydranfc_v2/ce.c:166-278 | from ceInit and ceStart, or any flags before activation: with level 4 a RATS, a good activation status, a command and its reply are exactly the calls that select card emulation, start the activation, ask for its status, take the command and send the reply |
| CardRun.NeverActivates | src/hydranfc_v2/ce.c:166-203 | without level 4 no sequence of events ever starts an activation |
| CardRun.ActivatedBy | src/hydranfc_v2/ce.c:257-285 | the card counts as activated only after a request for the activation status that was answered with success |
| CardRun.EffectBalance | src/hydranfc_v2/ce.c:456-689 | txReady is set by a delivery only, and a reply that is started settles it, whatever event it is |
| CardRun.EventsKeep | src/hydranfc_v2/ce.c:129-689 | every sequence of ceHandler, ceGetRx, command handler, ceSetTx and restart, in any order and with any answers, after ceInit and ceStart: the status is asked for only after a start of a transceive since listening began, and replies started plus a pending txReady never exceed frames delivered |
| CardRun.ReplyNeedsFrame | src/hydranfc_v2/ce.c:606-684 | from any flags, between two replies started there is a delivery |
| CardRun.PendingAfter | src/hydranfc_v2/ce.c:235-239 | while no command is processed a pending compatibility write stays exactly until listening starts again or ceSetTx goes to sleep |
| CardRun.StartAlone | src/hydranfc_v2/ce.c:437-446 | ceStart without ceInit: every sequence of events after it is in order exactly when isFirstA3_Frame happens to be set |
| CardRun.SessionIsEvents | src/hydranfc_v2/hydranfc_v2_ce.c:538-587 | every session of ceRun turns, with either handler, is such a sequence of events, with its flags and calls |
| CardRun.SessionKeeps | src/hydranfc_v2/hydranfc_v2_ce.c:659-674 | so every session asks for the status only after a start of a transceive since listening began, and its replies never outnumber its frames |
| CardRun.TagSession | src/hydranfc_v2/hydranfc_v2_ce.c:538-587 | a session of the Ultralight handler is a run of the tag over the frames delivered, a forgotten page counting as a loss of the field |
| CardRun.TagSessionKeeps | src/hydranfc_v2/hydranfc_v2_ce.c:360-507 | over it pages 0 to 2 stay and the bits of page 3 only go from 0 to 1 |
| CardRun.FileSession | src/hydranfc_v2/hydranfc_v2_ce.c:538-587 | a session of the Type 4 handler is a run of the file system over the commands delivered |
| CardRun.FileSessionBytes | src/hydranfc_v2/hydranfc_v2_ce.c:285-310 | after it each byte of the NDEF file is that of the last successful UPDATE in the session, and the capability container is as before |
| CardRun.FrameAnswered | src/hydranfc_v2/hydranfc_v2_ce.c:547-566 | a layer-3 frame that arrives is delivered as received, and what is transmitted in the same turn is the handler's reply to it; a negative reply, or none, ends in sleep |
| CardRun.FrameFits | src/hydranfc_v2/ce.c:41-43 | with the receive buffer as large as it is, such a frame of b whole bytes is copied inside it exactly for b up to 32, and a turn has a defined outcome only then; with the Ultralight handler exactly then |
| CardRun.CommandAnswered | src/hydranfc_v2/hydranfc_v2_ce.c:547-566 | an activated card answers a command in the same turn through ISO-DEP with the handler's reply |
| CardRun.Session | src/hydranfc_v2/hydranfc_v2_ce.c:659-672 | the firmware's loop of ceInit, ceStart, ceRun over and over and ceStop is such a session over the memories and the buffer it starts with, each turn finding the buffer as the one before left it; flags, memories, calls and buffer at its end are fixed, and there is no turn when the library does not start to listen |
| Reader.ParseInvertsFraming | src/hydranfc_v2/hydranfc_v2_reader.c:180-220 | parsing a frame gives back PCB, NAD, CID and INF for every setting of NAD and CID |
| Reader.FrameBytes | src/hydranfc_v2/hydranfc_v2_reader.c:198-215 | the bytes of a frame for each of the four header settings |
| Reader.ShortReceived | src/hydranfc_v2/hydranfc_v2_reader.c:180-196 | a length short of the header leaves 256 bytes less the ones missing |
| Reader.Session.FillTx | src/hydranfc_v2/hydranfc_v2_reader.c:198-215 | the transmit buffer holds the framed block |
| Reader.Session.GetIblock | src/hydranfc_v2/hydranfc_v2_reader.c:140-160 | PCB of the next number, bit by bit: the number, a one, NAD, CID and chaining; the number moves on |
| Reader.Session.GetRblock | src/hydranfc_v2/hydranfc_v2_reader.c:168-178 | an empty block with 0xB2, the CID bit where the session uses a CID, and the next number, which moves on |
| Reader.Session.ParseRTpdu | src/hydranfc_v2/hydranfc_v2_reader.c:180-196 | the block held is what the buffer and the length say, also for a length shorter than the header; fields that the session does not use stay |
| Reader.Session.SendTpdu | src/hydranfc_v2/hydranfc_v2_reader.c:198-220 | one frame out, and whatever the transceive left in the receive buffer, also a failed one, is parsed |
| Reader.Session.GrantTime | src/hydranfc_v2/hydranfc_v2_reader.c:255-258 | a request for time goes back with the two upper bits of its byte cleared, for every header; without its byte, with that of the byte behind it in the receive buffer |
| Reader.BlocksChain | src/hydranfc_v2/hydranfc_v2_reader.c:241-253 | numbers alternate from 0, every block but the last is chained, none is empty or longer than the block size |
| Reader.InfsAreApdu | src/hydranfc_v2/hydranfc_v2_reader.c:241-253 | the INF fields are the APDU while no block starts at 256 or later |
| Reader.SentIsApdu | src/hydranfc_v2/hydranfc_v2_reader.c:233-253 | they are, for every APDU of a length, exactly when the last block starts below 256, as it does up to 256 bytes |
| Reader.Session.SendBlocks | src/hydranfc_v2/hydranfc_v2_reader.c:238-253 | the send loop ends, despite the unsigned wrap of len, with exactly those blocks sent and one reply read for each |
| Reader.SendingIs | src/hydranfc_v2/hydranfc_v2_reader.c:247-252 | the frames sent are those of the blocks in order, and the block held is the last reply |
| Reader.Session.Collect | src/hydranfc_v2/hydranfc_v2_reader.c:264-269 | the reassembly loop sends one R-block per chained block and appends each INF field |
| Reader.Session.SendApdu | src/hydranfc_v2/hydranfc_v2_reader.c:231-271 | the frames sent and the answer are the transcript of the exchange, whose bytes are in the rows ApduExchange and ExchangeBytes |
| Reader.RBlockFrames | src/hydranfc_v2/hydranfc_v2_reader.c:168-178 | the R-blocks continue the numbering and carry the CID of the block they answer |
| Reader.AnswerIsAll | src/hydranfc_v2/hydranfc_v2_reader.c:260-269 | an answer chained on all blocks but the last is the concatenation of their INF fields |
| Reader.AnswerAfterWtx | src/hydranfc_v2/hydranfc_v2_reader.c:255-269 | also after one leading request for more time, which is granted |
| Reader.ApduExchange | src/hydranfc_v2/hydranfc_v2_reader.c:231-271 | for 1 to 256 bytes and block sizes 1 to 250: the k-th frame is 0x0A or 0x0B by turns, with 0x10 on all but the last, the CID and the k-th slice of the APDU; a leading request for time is granted, and the concatenation of the card's blocks is the answer, with one R-block for each after the first |
| Reader.ExchangeBytes | src/hydranfc_v2/hydranfc_v2_reader.c:231-271 | the same against a card that answers with the bytes of I-blocks chained on all but the last, after a request FA for time or not: its data joined is the answer, and the request comes back with the two upper bits of its byte cleared |
| Sump.Analyzer.WaitTrigger | src/hydrabus/hydrabus_sump.c:94-105 | stops at the first match, every sample up to it stored in turn and the match not passed |
| Sump.Analyzer.GetSamples | src/hydrabus/hydrabus_sump.c:75-126 | the match is the first sample that is the trigger value under the mask, and the ring is, slot by slot, what the stream stores in it: the samples to the match, then the delay samples from the slot of the match on |
| Sump.Analyzer.CountDelay | src/hydrabus/hydrabus_sump.c:108-121 | each delay sample is stored and passed, the first one taking the slot of the match |
| Sump.Analyzer.ReadOut | src/hydrabus/hydrabus_sump.c:176-194 | what goes out is the ring from the index downwards, one byte a sample, two when both channel groups are on |
| Sump.SentBytes | src/hydrabus/hydrabus_sump.c:183-192 | the low byte of a sample for the first channel group, the high one for the second, both in this order for the two |
| Sump.Analyzer.Run | src/hydrabus/hydrabus_sump.c:171-195 | for every stream: the ring of the capture from slot zero on, and the bytes of its read-back |
| Sump.CapturedHolds | src/hydrabus/hydrabus_sump.c:75-126 | the ring then holds the retained samples, as many as fit, and without a delay the match behind them |
| Sump.NewestComeBack | src/hydrabus/hydrabus_sump.c:75-195 | read-back is then the retained samples, newest first, for read counts up to what was retained and up to 8191, or 8192 with a delay |
| Sump.HeldIsRead | src/hydrabus/hydrabus_sump.c:176-194 | read-back of what the ring holds is its history, newest first |
| Sump.StoreKeeps | src/hydrabus/hydrabus_sump.c:97-104 | a store leaves alone what is held in fewer steps than lead to it |
| Sump.MatchReadBack | src/hydrabus/hydrabus_sump.c:97-102 | with no delay a read-back of the whole ring or more meets the match, which was not retained, for every stream |
| Sump.TooManyRead | src/hydrabus/hydrabus_sump.c:176-181 | a read-back of more than the ring is newest first only for a signal that repeats after 8192 samples |
| Sump.ReadsBackExactly | src/hydrabus/hydrabus_sump.c:75-195 | for each place of the match, delay and read count up to what was retained: read-back is right for every stream exactly when the count is within 8191 samples, or 8192 with a delay |
| Sump.Analyzer.SetCounts | src/hydrabus/hydrabus_sump.c:258-268 | the two little-endian words of SUMP_CNT, times four, the read count after adding one |
| Slcan.SlcanOut | src/hydrabus/hydrabus_mode_can.c:73-100 | the text fits 27 bytes with its zero, and is the text of the frame, then a carriage return |
| Slcan.LetterIs | src/hydrabus/hydrabus_mode_can.c:73-92 | t and r for standard data and remote frames, T and R for extended ones |
| Slcan.TextOfId | src/hydrabus/hydrabus_mode_can.c:82-93 | then the three or eight upper-case digits of the identifier and the length |
| Slcan.TextOfData | src/hydrabus/hydrabus_mode_can.c:95-98 | then two upper-case digits a byte |
| Slcan.PrintData | src/hydrabus/hydrabus_mode_can.c:95-98 | two digits a byte, in order, with a zero behind the last |
| Slcan.TxMessage.ScanData | src/hydrabus/hydrabus_mode_can.c:130-137 | as many conversions as the text has, up to eight, each stored one byte further |
| Slcan.StoresAre | src/hydrabus/hydrabus_mode_can.c:130-137 | the overlapping four-byte stores leave each converted byte in its place |
| Slcan.TxMessage.SlcanIn | src/hydrabus/hydrabus_mode_can.c:102-156 | header, data and acceptance are those of the scan of the text |
| Slcan.RoundTrip | src/hydrabus/hydrabus_mode_can.c:73-156 | for every standard or extended frame of up to 8 bytes, whatever follows its carriage return and whatever the message held, parsing gives back ID, IDE, RTR, DLC and the first DLC bytes |
| Slcan.AcceptedExactly | src/hydrabus/hydrabus_mode_can.c:126-155 | behind its letter a frame is accepted exactly when identifier, length and as many bytes are there, or when nothing is left to scan, the message then keeping what it had |
| Slcan.WrappedLength | src/hydrabus/hydrabus_mode_can.c:151-155 | for the two lengths at the end of the word range, which only a message never filled in can have, the exact condition with the wrapped sum |
| Slcan.ReadCommand | src/hydrabus/hydrabus_mode_can.c:158-170 | the bytes up to the carriage return, or as many as fit, are put over what an earlier command left, with no zero behind them |
| Slcan.BareLetter | src/hydrabus/hydrabus_mode_can.c:102-170 | a letter and its carriage return: what the earlier command left behind these two bytes is scanned, and accepted exactly when it is complete or blank |
| Slcan.StaleFrame | src/hydrabus/hydrabus_mode_can.c:102-170 | so a complete frame left there is sent once more under the new letter |
| Atr.InvertedTwice | src/hydrabus/hydrabus_mode_smartcard.c:40-50 | the inverse convention undoes itself |
| Atr.InverseTs | src/hydrabus/hydrabus_mode_smartcard.c:149-151 | it turns the TS seen on the line into the standard one |
| Atr.InvertedBit | src/hydrabus/hydrabus_mode_smartcard.c:40-50 | bit i of a byte in inverse convention is the opposite of bit 7 - i on the line |
| Atr.ApplyConvention | src/hydrabus/hydrabus_mode_smartcard.c:40-50 | the bytes named are converted in place when the card is inverse, all others stay |
| Atr.ReadGroups | src/hydrabus/hydrabus_mode_smartcard.c:173-210 | the loop reads the interface bytes to the index and with the checksum rule of its recursive form |
| Atr.ReadTail | src/hydrabus/hydrabus_mode_smartcard.c:212-232 | the historical bytes that T0 counts, and one more when a checksum is expected |
| Atr.WalkIsInterface | src/hydrabus/hydrabus_mode_smartcard.c:173-210 | the loop covers exactly the interface groups of the recursive grammar |
| Atr.TckIsOdd | src/hydrabus/hydrabus_mode_smartcard.c:179-180 | a checksum is expected exactly when a protocol is odd, TD1 not counting directly behind T0 |
| Atr.WrittenRead | src/hydrabus/hydrabus_mode_smartcard.c:173-210 | groups written with their announcing bits, TD bytes and protocols are read back by the grammar, whatever follows |
| Atr.WrittenLength | src/hydrabus/hydrabus_mode_smartcard.c:173-232 | so a written answer is read to the end of its historical bytes, and one byte more exactly when a protocol that counts is odd |
| Atr.LengthAgrees | src/hydrabus/hydrabus_mode_smartcard.c:173-232 | the bytes consumed are those of the grammar exactly when no protocol but 0 is named or one that counts is odd |
| Atr.StandardProtocols | src/hydrabus/hydrabus_mode_smartcard.c:173-232 | so for protocols 0, 1 and 15, unless TD1 comes directly behind T0 |
| Atr.Td1AfterT0 | src/hydrabus/hydrabus_mode_smartcard.c:179-180 | and one byte less for a card that names one protocol other than 0 there |
| Atr.GetAtr | src/hydrabus/hydrabus_mode_smartcard.c:115-233 | the buffer holds TS and exactly that many bytes behind it, in the card's convention; after a non-standard TS it holds up to eight more bytes as they come |
| CycleCounter.Counter.Get | src/drv/stm32cube/bsp.c:36-46 | the result has the processor's count as its low word and lies less than 2^32 behind the saved one, modulo 2^64, through a signed copy |
| CycleCounter.Counter.GetI | src/drv/stm32cube/bsp.c:53-57 | the same without the copy |
| CycleCounter.AdvancedIsOnly | src/drv/stm32cube/bsp.c:36-57 | there is exactly one such count |
| CycleCounter.TrueCount | src/drv/stm32cube/bsp.c:42 | a right count stays right exactly when fewer than 2^32 cycles passed, or that many above a multiple of 2^64 |
| CycleCounter.ReadingsAreTrue | src/drv/stm32cube/bsp.c:36-57 | in every run with calls less than 2^32 cycles apart each result is the true count |
| CycleCounter.Mixed | src/drv/stm32cube/bsp.c:36-57 | the two functions may be mixed freely |

## Left out

- GPIO, timer, UART and USB drivers, delays, console printing, threads and the user button (taken as not pressed): they are the environment.
- Failing `malloc` and `realloc` in hex2dfu.c, option parsing and file access.
- ED25519 signing in hex2dfu.c, which is compiled out.
- hex2dfu.c with images of 2 GB or more, whose `dfu_len` would leave an int.
- Zero bytes inside a line of a HEX file.
- The firmware reads one bit order field and sets another for JTAG commands; the model has one parameter.
- TRST, the pin brute-force searches and the other openOCD commands.
- NFC-F, NFC-B and the PROCESS_INTERNAL mode of ce.c, `rfal_poller.c` and the second emulator in `hydranfc_v2_bbio_card_emulator.c`.
- The internals of the NFC library: its answers are parameters, and its receive buffer is given at each call.
- CardEmu.Emulator.Start: does not model the parsing of the TLV configuration that it hands to the library; the library's answer is a parameter.
- The NDEF message that is put into the file when emulation starts.
- Reader.Session.SendApdu: asks for a card that goes on answering, every frame with its header and at most 255 bytes, a request for time with its byte, and an answer within the 260 bytes of the buffer; conformance beyond what one call does (R(NAK) form of the R-block, numbering restarted for each APDU, one request for time only) is not claimed.
- Slcan.TxMessage.SlcanIn: does not model the signs and `0x` prefixes that the C library's `sscanf` would take in its conversions.
- Slcan.SlcanOut: does not model received frames with a DLC above 8, for which the code reads past the eight data bytes and, where the text is longer than its buffer, writes past that.
- The timing table of the ATR reader (Fi, Di, fMax), which only prints.
- The bus modes whose code is a thin layer over a driver, `onewire_scan`, `trigger_run`, and the Python scripts.
