# Verified model of the rsansible core

A Dafny model of the parts of rsansible where a subtle mistake would be expensive: the bit-level wire codec and
its checksum, secret redaction, the report push worker, background jobs, the template, dotenv, vault and
host-pattern text machines, and the clock arithmetic. Every statement is a proof about the model, for all
inputs, all runs and all environments; the Rust program itself is not executed.

Code that updates state step by step is modelled by classes and methods with loops. Each method is proved against
a specification function, and the lemmas are about that function.

## Layout

| file | what it holds |
|---|---|
| `Words.dfy`, `Sequences.dfy`, `Options.dfy`, `Text.dfy` | machine words as numbers with their binary digits, sequence algebra, strings |
| `BitLayout.dfy` | how bytes and bit fields lie on a stream of bits in either bit order |
| `Varint.dfy`, `VarintRules.dfy` | the six variable-length integer codecs as pairs of byte functions; what the readers make of any bytes |
| `BitStreamEncoder.dfy`, `BitStreamDecoder.dfy` | the two classes, fast paths included, against the stream of bits |
| `WireProgram.dfy`, `WireTruncation.dfy` | arbitrary programs of writes and the matching programs of reads; messages cut short |
| `Crc32.dfy`, `CrcCancellation.dfy` | the table loop, bit-serial division, the three wrong table entries, burst detection; how far apart wrong entries can cancel |
| `Secrets.dfy`, `SecretLeaks.dfy`, `SecretRules.dfy` | the registry, redaction of text and of JSON; the secrets that can survive it, exactly; what a replacement does, part by part |
| `PushWorker.dfy`, `PushRuns.dfy` | the push worker as a step relation against an adversarial network, and the worker's code; whose reports the items are, and the run without failures |
| `AsyncJob.dfy`, `AsyncOutcome.dfy` | the job watcher as a step relation against messages, deadline and polls, and its code; whose outcome the entry tells |
| `Utf8.dfy`, `Jinja.dfy`, `JinjaRules.dfy`, `Braces.dfy` | UTF-8, the Jinja source rewriter and its rules byte by byte, the brace scanner |
| `Dotenv.dfy`, `DotenvRules.dfy` | the dotenv parser and `$` expansion; every kind of line and value |
| `Glob.dfy`, `HostPattern.dfy`, `HostTerm.dfy`, `HostTermRules.dfy` | glob compilation, tokenizing and resolving, the term and index syntax and its rules |
| `Vault.dfy`, `VaultRules.dfy` | the vault envelope; what each layer accepts and rejects |
| `Clock.dfy` | the clock-offset estimate and the run's time accounts |

## Where the code differs from what is said about it

- CRC-32: three literals of the table are not the IEEE residues (indices 42, 43 and 245). All prefixes of a message
  have the IEEE checksum exactly if no byte meets one of them (`Crc32.PrefixesExactly`). Met entries can cancel, but
  only over fifteen bytes or more: up to fourteen bytes from the first one on the checksum is wrong exactly if one is
  met (`CrcCancellation.ShortExactly`), and at fifteen there is a message whose checksum comes out right
  (`CrcCancellation.FifteenCanCancel`). Error detection does not suffer (`Crc32.BurstDetected`).
- LEB128: the reader refuses the tenth byte, so values from 2^63 up are written and cannot be read, and zigzag works
  on [-2^62, 2^62) only.
- SLEB128: an eleventh byte makes the reader shift by 70. A build with overflow checks panics, which the model reports
  as the error `ShiftOverflow`; the release build takes the shift modulo 64 and accepts the byte if it ends the value
  (`Varint.SlebEleven`). Every statement about the codec holds for both builds.
- EBML: the `width > 8` check can never fire; a leading zero byte is taken as width 8 (`Varint.EbmlNoMarker`).
- `write_bits` ignores widths 0 and above 64, where `read_bits` reports an error.
- Redaction: a secret can be left in the output exactly if one of its occurrences can share characters with a
  placeholder (`SecretLeaks.ApartExactly`): it lies inside the placeholder, contains it, ends in a start of it or starts
  with an end of it. Brackets alone do no harm (`SecretLeaks.BracketsCanBeSafe`); `aaaa<red` leaks beside `bbbbbbbb`
  (`SecretLeaks.BracketSecretExample`) and also alone (`SecretLeaks.LoneSecretExample`).
- Push protocol: items carry sequence numbers, but `PUSH_PROTOCOL.md` (lines 52-73) has the server key them by
  dimensions, so the modelled server does.
- Async jobs: a dispatch that lingers after its terminal message can be seen as successful and later as timed out
  (`AsyncJob.SuccessThenTimeout`); for such dispatches a finished outcome is final exactly without a timeout
  (`AsyncJob.FinalExactly`). A dispatch that returns with its terminal message is final either way
  (`AsyncJob.PromptIsFinal`).
- Globs: `*` and `?` become `.` patterns, which stop at newlines (`Glob.NewlineSplits`), and a class that is closed can
  still be refused by the regex engine (`Glob.ClosedYetRefused`).
- Dotenv: `export =x` is an assignment to the key `export` with a blank behind it, and is taken for the prefix: the line
  defines nothing (`DotenvRules.ExportIsTaken`). It is the only line with a valid key that is lost.
- The round trip of the clock probe is described as never negative; the code clamps it at zero and narrows it to
  64 bits.

## Model

| member | source | states |
|---|---|---|
| BitLayout.BitOfField | crates/wire-runtime/src/bitstream.rs:90-99 | what the bits of a field mean in each bit order: which digit of the value each of them is |
| BitLayout.FieldRoundTrip | crates/wire-runtime/src/bitstream.rs:62-117 | in either bit order, the bits of a field read back as the value masked to the field's width |
| BitLayout.UnpackPack | crates/wire-runtime/src/bitstream.rs:127-140 | bytes laid on a stream come back first and in order, whatever bits follow them |
| BitLayout.PackUnpack | crates/wire-runtime/src/bitstream.rs:496-505 | the bits of a whole number of bytes are recovered from the bytes read from them |
| BitLayout.BytesFromPut | crates/wire-runtime/src/bitstream.rs:609-629 | from any bit position the byte reader sees exactly the bytes the byte writer put there, whatever follows them |
| BitLayout.PutByteLayout | crates/wire-runtime/src/bitstream.rs:127-140 | which stream bit is which digit of a written byte: inside a partial byte least significant first in both bit orders, on a boundary most significant first in an MSB-first stream only |
| BitLayout.ReadByteLayout | crates/wire-runtime/src/bitstream.rs:609-629 | the same for every byte that is read at any position |
| BitStreamEncoding.StateDetermined | crates/wire-runtime/src/bitstream.rs:62-124 | buffer, partial byte and bit position are determined by the bits written so far, so two ways of writing the same bits leave the same state; this turns the stream contracts below into state refinements |
| BitStreamEncoding.MergeField | crates/wire-runtime/src/bitstream.rs:74-90 | OR-ing a shifted field into the partial byte appends exactly that field's bits and leaves the rest of the byte zero, in both bit orders |
| BitStreamEncoding.BitStreamEncoder.constructor | crates/wire-runtime/src/bitstream.rs:28-35 | a new encoder holds the empty stream |
| BitStreamEncoding.BitStreamEncoder.Clear | crates/wire-runtime/src/bitstream.rs:49-53 | clearing gives the empty stream and keeps the bit order |
| BitStreamEncoding.BitStreamEncoder.FlushByte | crates/wire-runtime/src/bitstream.rs:120-124 | the partial byte becomes the last whole byte, all eight bits of it |
| BitStreamEncoding.BitStreamEncoder.WriteSingleBit | crates/wire-runtime/src/bitstream.rs:102-117 | appends one bit |
| BitStreamEncoding.BitStreamEncoder.WriteBitsSerial | crates/wire-runtime/src/bitstream.rs:90-99 | the bit-by-bit loop appends the field in the encoder's bit order |
| BitStreamEncoding.BitStreamEncoder.WriteBits | crates/wire-runtime/src/bitstream.rs:62-99 | with its fast path, appends the same bits as the bit-by-bit loop on every state, and nothing for width 0 or above 64 |
| BitStreamEncoding.BitStreamEncoder.WriteUint8 | crates/wire-runtime/src/bitstream.rs:127-140 | one byte: on a boundary in the bit order of the stream, inside a byte least significant bit first; both cases spelled out with their field |
| BitStreamEncoding.BitStreamEncoder.WriteUint16 | crates/wire-runtime/src/bitstream.rs:143-162 | two bytes in the given endianness at any alignment |
| BitStreamEncoding.BitStreamEncoder.WriteUint32 | crates/wire-runtime/src/bitstream.rs:165-188 | four bytes in the given endianness at any alignment |
| BitStreamEncoding.BitStreamEncoder.WriteUint64 | crates/wire-runtime/src/bitstream.rs:191-210 | eight bytes in the given endianness at any alignment, unaligned ones through two 32-bit writes |
| BitStreamEncoding.BitStreamEncoder.WriteByte | crates/wire-runtime/src/bitstream.rs:247-254 | the aligned byte write equals the general one |
| BitStreamEncoding.BitStreamEncoder.WriteAligned | crates/wire-runtime/src/bitstream.rs:256-308 | each aligned 16, 32 and 64-bit write equals the endian-generic one |
| BitStreamEncoding.BitStreamEncoder.WriteVarlengthLeb128 | crates/wire-runtime/src/bitstream.rs:392-406 | the loop emits the LEB128 bytes of the value |
| BitStreamEncoding.BitStreamEncoder.WriteVarlengthZigzag | crates/wire-runtime/src/bitstream.rs:342-345 | emits the LEB128 bytes of the zigzag image |
| BitStreamEncoding.BitStreamEncoder.WriteVarlengthSleb128 | crates/wire-runtime/src/bitstream.rs:349-363 | the loop with arithmetic shifts emits the SLEB128 bytes of the value |
| BitStreamEncoding.BitStreamEncoder.WriteVarlengthDer | crates/wire-runtime/src/bitstream.rs:367-388 | emits the DER length octets |
| BitStreamEncoding.BitStreamEncoder.WriteVarlengthEbml | crates/wire-runtime/src/bitstream.rs:410-439 | emits the EBML bytes, or reports an error and writes nothing |
| BitStreamEncoding.BitStreamEncoder.WriteVarlengthVlq | crates/wire-runtime/src/bitstream.rs:443-470 | emits the VLQ bytes, or reports an error and writes nothing |
| BitStreamEncoding.BitStreamEncoder.Finish | crates/wire-runtime/src/bitstream.rs:479-484 | the bytes hold the stream followed by fewer than eight zero bits |
| BitStreamDecoding.OneByteField | crates/wire-runtime/src/bitstream.rs:514-532 | shift and mask of one byte is the MSB-first field at that offset |
| BitStreamDecoding.TwoByteField | crates/wire-runtime/src/bitstream.rs:533-552 | the joined parts of two bytes are the MSB-first field across their boundary |
| BitStreamDecoding.GatherStep | crates/wire-runtime/src/bitstream.rs:554-566 | OR-ing one more bit at its place extends the value read so far by that bit, in both bit orders |
| BitStreamDecoding.AlignedRest | crates/wire-runtime/src/bitstream.rs:769-777 | on a byte boundary the bytes still to be read are the tail of the buffer, whatever the bit order |
| BitStreamDecoding.BitStreamDecoder.ReadSingleBit | crates/wire-runtime/src/bitstream.rs:569-589 | the next bit, or end of input without moving |
| BitStreamDecoding.BitStreamDecoder.ReadBitsSerial | crates/wire-runtime/src/bitstream.rs:554-566 | the bit-by-bit loop reads the field at the cursor, or fails having used up the input |
| BitStreamDecoding.BitStreamDecoder.ReadBits | crates/wire-runtime/src/bitstream.rs:507-566 | with its one- and two-byte fast paths, the same value, the same new position and failure in exactly the same states as the bit-by-bit loop; where a failing read leaves the cursor is stated for both |
| BitStreamDecoding.BitStreamDecoder.ReadBytesVec | crates/wire-runtime/src/bitstream.rs:594-607 | a run of bytes, refused off a byte boundary, nothing consumed on error |
| BitStreamDecoding.BitStreamDecoder.ReadUint8 | crates/wire-runtime/src/bitstream.rs:609-629 | the next byte at any alignment: on a boundary the field of the next eight bits in the bit order of the stream, inside a byte the field with the least significant bit first |
| BitStreamDecoding.BitStreamDecoder.ReadUint16 | crates/wire-runtime/src/bitstream.rs:632-663 | the next two bytes in the given endianness, or end of input, with the cursor unmoved on a byte boundary and at the end inside a byte |
| BitStreamDecoding.BitStreamDecoder.ReadUint32 | crates/wire-runtime/src/bitstream.rs:666-701 | the next four bytes in the given endianness, or end of input, with the cursor unmoved on a byte boundary and at the end inside a byte |
| BitStreamDecoding.BitStreamDecoder.ReadUint64 | crates/wire-runtime/src/bitstream.rs:704-731 | the next eight bytes in the given endianness, joined from two 32-bit reads; the cursor after a failure is stated |
| BitStreamDecoding.BitStreamDecoder.ReadByte | crates/wire-runtime/src/bitstream.rs:769-777 | the aligned byte read gives the next byte, or end of input without moving |
| BitStreamDecoding.BitStreamDecoder.ReadAligned | crates/wire-runtime/src/bitstream.rs:779-879 | each aligned read equals the endian-generic one, without moving on error |
| BitStreamDecoding.BitStreamDecoder.ReadVarlengthLeb128 | crates/wire-runtime/src/bitstream.rs:967-987 | the loop over `shift` and `result` computes the LEB128 decoding of the bytes ahead, errors and the cursor after them included |
| BitStreamDecoding.BitStreamDecoder.ReadVarlengthZigzag | crates/wire-runtime/src/bitstream.rs:912-916 | the zigzag preimage of the LEB128 value ahead, errors and the cursor after them included |
| BitStreamDecoding.BitStreamDecoder.ReadVarlengthSleb128 | crates/wire-runtime/src/bitstream.rs:920-942 | the loop with its 64-bit truncation and sign extension computes the SLEB128 decoding, with overflow checks and without; the cursor after a failure is stated |
| BitStreamDecoding.BitStreamDecoder.ReadVarlengthDer | crates/wire-runtime/src/bitstream.rs:946-963 | the DER length ahead, errors and the cursor after them included |
| BitStreamDecoding.BitStreamDecoder.ReadVarlengthEbml | crates/wire-runtime/src/bitstream.rs:991-1018 | the EBML integer ahead, errors and the cursor after them included |
| BitStreamDecoding.BitStreamDecoder.ReadVarlengthVlq | crates/wire-runtime/src/bitstream.rs:1022-1046 | the VLQ integer ahead, errors and the cursor after them included |
| BitStreamDecoding.BitStreamDecoder.Seek | crates/wire-runtime/src/bitstream.rs:1063-1073 | moves to a byte position, refused past the end |
| BitStreamDecoding.BitStreamDecoder.Peek | crates/wire-runtime/src/bitstream.rs:1077-1142 | on a byte boundary each peek is what the following read returns, errors included; inside a byte it is an error |
| Varint.IntRoundTrip | crates/wire-runtime/src/bitstream.rs:632-731 | fixed-width integers come back from their bytes in either endianness with any tail |
| VarintRules.IntLayout | crates/wire-runtime/src/bitstream.rs:143-210 | which byte of an integer goes where: least significant last in big-endian order, first in little-endian order |
| VarintRules.IntBack | crates/wire-runtime/src/bitstream.rs:632-731 | every run of bytes is the one its integer is written as, so no two runs read alike |
| Varint.LebRoundTrip | crates/wire-runtime/src/bitstream.rs:392-406 | LEB128 comes back with any tail exactly for values below 2^63; every other value is refused by the reader |
| Varint.LebMeaning | crates/wire-runtime/src/bitstream.rs:392-406 | the bytes are the value in little-endian base 128, each but the last with its continuation bit (section 7.6 of DWARF 5) |
| Varint.LebLength | crates/wire-runtime/src/bitstream.rs:392-406 | k+1 bytes suffice exactly below 2^(7k+7) |
| Varint.LebShortest | crates/wire-runtime/src/bitstream.rs:967-987 | no byte string that reads as a value is shorter than the one written for it |
| VarintRules.LebReads | crates/wire-runtime/src/bitstream.rs:967-987 | for any bytes, overlong forms included: up to the first without continuation bit, at most nine, they read as a little-endian number in base 128; ten or more are refused, fewer without an end are the end of input |
| Varint.ZigZagBijection | crates/wire-runtime/src/bitstream.rs:342-345 | zigzag is a bijection between i64 and u64, equal to its arithmetic definition |
| Varint.ZigZagRoundTrip | crates/wire-runtime/src/bitstream.rs:912-916 | zigzag comes back exactly on [-2^62, 2^62) and is refused elsewhere |
| Varint.SlebRoundTrip | crates/wire-runtime/src/bitstream.rs:920-942 | SLEB128 comes back for every i64 with any tail, in at most ten bytes, the sign extension included |
| Varint.SlebEleven | crates/wire-runtime/src/bitstream.rs:920-942 | after ten continuation bytes a build with overflow checks fails; one without accepts the eleventh byte exactly if it ends the value |
| Varint.SlebMeaning | crates/wire-runtime/src/bitstream.rs:349-363 | the bytes are the value in little-endian base 128 with a signed last digit (section 7.6 of DWARF 5) |
| Varint.SlebLength | crates/wire-runtime/src/bitstream.rs:349-363 | k+1 bytes are enough exactly on [-2^(7k+6), 2^(7k+6)) |
| Varint.SlebShortest | crates/wire-runtime/src/bitstream.rs:349-363 | no byte string that reads as a value is shorter than the one written for it |
| VarintRules.SlebReads | crates/wire-runtime/src/bitstream.rs:920-942 | for any bytes up to ten: a little-endian number in base 128 with a signed last digit, wrapped to 64 bits; without an end they are the end of input |
| VarintRules.SlebReadsEleven | crates/wire-runtime/src/bitstream.rs:920-942 | any ten continuation bytes and an eleventh: an error if it continues too or shifts are checked, else its digits are ORed in from the sixth on, and what that reads as in 64 bits is the value |
| Varint.DerRoundTrip | crates/wire-runtime/src/bitstream.rs:946-963 | DER lengths come back for every u64 with any tail |
| Varint.DerMeaning | crates/wire-runtime/src/bitstream.rs:367-388 | one octet below 128, otherwise a count and the value big-endian without leading zero (sections 8.1.3 and 10.1 of ITU-T X.690) |
| Varint.DerShortest | crates/wire-runtime/src/bitstream.rs:367-388 | the octets written are the fewest that read as the value |
| VarintRules.DerReads | crates/wire-runtime/src/bitstream.rs:946-963 | for any bytes: a byte below 128 is the length, otherwise it counts at most eight octets, leading zeros included; a greater count is refused, missing octets are the end of input |
| Varint.EbmlWidthExact | crates/wire-runtime/src/bitstream.rs:410-439 | the writer accepts exactly the values up to 2^56-2 and uses the least width w with value <= 2^(7w)-2, never the reserved all-ones data |
| Varint.EbmlRoundTrip | crates/wire-runtime/src/bitstream.rs:991-1018 | value and width are recovered for every accepted value with any tail |
| Varint.EbmlMeaning | crates/wire-runtime/src/bitstream.rs:410-439 | the bytes read big-endian are the marker bit one above the data (section 4 of RFC 8794) |
| Varint.EbmlNoMarker | crates/wire-runtime/src/bitstream.rs:1003-1008 | a first byte without marker bit is read as width 8, whatever follows, and as end of input before fewer than seven bytes: the reader's width check never fires |
| VarintRules.EbmlReads | crates/wire-runtime/src/bitstream.rs:991-1018 | any bytes whose highest digit is at the marker of their number read as what is left without it, overlong forms included |
| VarintRules.EbmlShort | crates/wire-runtime/src/bitstream.rs:991-1018 | fewer bytes than the marker asks for are the end of input |
| Varint.VlqRoundTrip | crates/wire-runtime/src/bitstream.rs:1022-1046 | VLQ comes back for every value up to 0x0FFFFFFF with any tail, in at most four bytes |
| Varint.VlqMeaning | crates/wire-runtime/src/bitstream.rs:443-470 | the bytes are the value in big-endian base 128 under continuation bits |
| Varint.VlqShortest | crates/wire-runtime/src/bitstream.rs:443-470 | the bytes written are the fewest that read as the value, and nothing reads as more than 0x0FFFFFFF |
| VarintRules.VlqReads | crates/wire-runtime/src/bitstream.rs:1022-1046 | for any bytes: up to four read as a big-endian number in base 128, more are refused, fewer without an end are the end of input |
| WireProgram.RoundTripExactly | crates/wire-runtime/src/bitstream.rs:313-470 | a single write of any kind is undone by its read, at any alignment and before any tail, if and only if its value is in the stated range |
| WireProgram.ProgramRoundTrip | crates/wire-runtime/src/bitstream.rs:507-1046 | every program of in-range writes, at any mix of alignments, is undone by the matching reads, which stop exactly where the writes stopped |
| WireProgram.RunWrites | crates/wire-runtime/src/bitstream.rs:62-470 | the encoder running any typed program, failing writes included, produces the program's stream and reports a failure exactly when some write fails |
| WireProgram.RunReads | crates/wire-runtime/src/bitstream.rs:507-1046 | the decoder running a program of reads returns the program's values or its first error |
| WireProgram.EncodeThenDecode | crates/wire-runtime/src/bitstream.rs:479-484 | write, finish, read: all values come back, no read hits the end, fewer than eight bits are left over |
| WireTruncation.ValueCut | crates/wire-runtime/src/bitstream.rs:632-1046 | in every format, every proper beginning of a written value reads as the end of input |
| WireTruncation.ProgramCut | crates/wire-runtime/src/bitstream.rs:507-1046 | wherever the stream of a program is cut, inside a bit field, a byte or a number, the matching reads report the end of input |
| WireTruncation.MessageCut | crates/wire-runtime/src/bitstream.rs:479-1046 | a finished message that has lost any bytes at its end is refused by its reads: no value is ever made up |
| Crc32.Crc32 | crates/wire-runtime/src/lib.rs:122-170 | the loop computes the table recurrence |
| Crc32.TableLoopIsDivision | crates/wire-runtime/src/lib.rs:164-169 | for any table of 8-step residues the loop is bit-serial division by 0xEDB88320, from every state and on every message (section 8 of RFC 1952) |
| Crc32.TableExact | crates/wire-runtime/src/lib.rs:124-162 | an entry of the literal table is its residue if and only if its index is not 42, 43 or 245 |
| Crc32.TableIsNotTheResidues | crates/wire-runtime/src/lib.rs:131 | so the literal table does not obey the residue law |
| Crc32.DriftIsTheDifference | crates/wire-runtime/src/lib.rs:164-169 | the difference between the code's state and the true one is a linear recurrence driven by the wrong entries that are hit |
| Crc32.DriftOfHits | crates/wire-runtime/src/lib.rs:164-169 | no hit on a wrong entry keeps the difference as it is in being zero or not; exactly one hit makes it non-zero for good |
| Crc32.Crc32Exactly | crates/wire-runtime/src/lib.rs:122-170 | the checksum is the IEEE one if and only if that difference ends at zero; with no hit it is, with exactly one it is not |
| Crc32.PrefixesExactly | crates/wire-runtime/src/lib.rs:122-170 | every prefix of a message has the IEEE checksum if and only if no byte of it meets a wrong entry |
| CrcCancellation.DriftIsSum | crates/wire-runtime/src/lib.rs:164-169 | the difference is the sum of the errors met, each shifted by the bytes since |
| CrcCancellation.RightExactly | crates/wire-runtime/src/lib.rs:122-170 | the checksum is the IEEE one if and only if the errors met, each shifted by the bytes since, add up to nothing |
| CrcCancellation.NoneCancel | crates/wire-runtime/src/lib.rs:131-162 | no choice of wrong entries over fourteen bytes adds up to nothing, whatever message would meet them |
| CrcCancellation.ShortExactly | crates/wire-runtime/src/lib.rs:122-170 | a message with fewer than fifteen bytes from its first hit on, and so every message of fewer than fifteen bytes, has the IEEE checksum if and only if it has no hit |
| CrcCancellation.FifteenCanCancel | crates/wire-runtime/src/lib.rs:122-170 | a message of fifteen bytes with hits whose checksum is nevertheless the IEEE one: the bound is sharp |
| Crc32.MisprintSeen | crates/wire-runtime/src/lib.rs:131 | a one-byte message whose checksum is not the IEEE one |
| Crc32.TableTopsDistinct | crates/wire-runtime/src/lib.rs:124-162 | the top bytes of the literal table are pairwise distinct, wrong entries included |
| Crc32.StepBack | crates/wire-runtime/src/lib.rs:166-167 | the upper bytes behind a step determine the table index and one more byte before it |
| Crc32.WindowDetermined | crates/wire-runtime/src/lib.rs:164-169 | from the same state, at most four bytes are determined by the state behind them |
| Crc32.SuffixInjective | crates/wire-runtime/src/lib.rs:164-169 | different states stay different over any common suffix |
| Crc32.BurstDetected | crates/wire-runtime/src/lib.rs:122-170 | two messages that differ only inside a window of four bytes have different checksums |
| Secrets.NothingCreated | crates/ctl/src/secrets.rs:171-173 | a replacement creates no occurrence of a string that stands apart from the placeholder |
| Secrets.PatternGone | crates/ctl/src/secrets.rs:171-173 | after replacing all of a secret that stands apart it occurs nowhere, seams included |
| Secrets.RedactRemoves | crates/ctl/src/secrets.rs:161-176 | a replaced secret that stands apart stays gone, whatever is replaced before and after it |
| Secrets.NoSecretSurvives | crates/ctl/src/secrets.rs:161-176 | in every text and for every registry, no secret that stands apart from the placeholder occurs in the redacted text, whatever the other secrets are |
| Secrets.RedactIsIdentityOnClean | crates/ctl/src/secrets.rs:161-176 | text without secrets is returned unchanged, for any set of secrets |
| Secrets.RedactIsIdempotent | crates/ctl/src/secrets.rs:161-176 | redacting twice is redacting once, for registries of such secrets |
| Secrets.InsideExactly | crates/ctl/src/secrets.rs:50 | a registry whose secrets stand apart or lie inside the placeholder cleans every text if and only if none lies inside |
| SecretLeaks.ApartExactly | crates/ctl/src/secrets.rs:161-176 | for every learnable string: no registry that holds it and no text leaves it in the output if and only if none of its occurrences can share a character with a placeholder |
| SecretLeaks.InsideLeaks | crates/ctl/src/secrets.rs:161-176 | a secret inside the placeholder is put there by its own redaction |
| SecretLeaks.TailLeaks | crates/ctl/src/secrets.rs:161-176 | a secret that ends in a start of the placeholder is recreated by the replacement of a later one right behind its beginning |
| SecretLeaks.RepeatLeaks | crates/ctl/src/secrets.rs:161-176 | such a secret leaks alone where its beginning is repeated before it, if it does not already occur earlier there |
| SecretLeaks.PlainRepeatLeaks | crates/ctl/src/secrets.rs:161-176 | which holds for every such secret whose beginning has no opening bracket |
| SecretLeaks.IntoLeaks | crates/ctl/src/secrets.rs:161-176 | for every such secret there is a second one and a text for which this happens |
| SecretLeaks.OutOfLeaks | crates/ctl/src/secrets.rs:161-176 | likewise for every secret that starts with an end of the placeholder |
| SecretLeaks.AroundLeaks | crates/ctl/src/secrets.rs:161-176 | and for every secret that contains the placeholder |
| SecretLeaks.BracketsCanBeSafe | crates/ctl/src/secrets.rs:161-176 | a secret with brackets of its own that stands apart |
| SecretLeaks.BracketSecretExample | crates/ctl/src/secrets.rs:161-176 | two learnable secrets of eight bytes and a text that leaks one of them |
| SecretLeaks.LoneSecretExample | crates/ctl/src/secrets.rs:161-176 | one of them leaks from a registry that holds nothing else |
| Secrets.BracketlessExactly | crates/ctl/src/secrets.rs:50 | so a registry of bracket-free secrets cleans every text if and only if none of them occurs in the placeholder |
| Secrets.Leak | crates/ctl/src/secrets.rs:161-176 | otherwise one of its secrets redacts to the placeholder that contains it |
| Secrets.ReplacedWhole | crates/ctl/src/secrets.rs:159-168 | longest first: in a registry of such secrets, one inside which all other matches lie is replaced whole by one placeholder, with nothing around it touched |
| Secrets.FirstExists | crates/ctl/src/secrets.rs:167-168 | the sort order, longest first and then lexical, always has a first element |
| Secrets.FirstUnique | crates/ctl/src/secrets.rs:167-168 | and only one, so every correct sort gives the same order of replacement |
| Secrets.SecretRegistry.FromValues | crates/ctl/src/secrets.rs:92-103 | a rebuilt registry holds the learnable ones of the given strings and no others |
| Secrets.SnapshotRestores | crates/ctl/src/secrets.rs:92-113 | a registry rebuilt from the values of another, in any order and with any repetition, holds the same secrets |
| Secrets.SecretRegistry.Learn | crates/ctl/src/secrets.rs:137-155 | adds exactly the learnable string leaves of the document, at any depth |
| Secrets.SecretRegistry.RedactText | crates/ctl/src/secrets.rs:161-176 | the sorted loop with its `contains` test computes the redaction |
| Secrets.SecretRegistry.RedactValue | crates/ctl/src/secrets.rs:205-218 | redacts every string leaf and nothing else of the document |
| Secrets.SecretRegistry.RedactJsonPayload | crates/ctl/src/secrets.rs:192-203 | parse, redact, print, with the fallback to plain text on every failure |
| Secrets.JsonLeavesClean | crates/ctl/src/secrets.rs:205-218 | no string leaf of a redacted document, however deep, holds a secret that stands apart |
| Secrets.JsonUntouched | crates/ctl/src/secrets.rs:205-218 | a document without secrets in its leaves is left exactly as it was |
| Secrets.PayloadIsClean | crates/ctl/src/secrets.rs:178-203 | for any JSON library whose printer its parser undoes: a payload that parses comes out as a text that parses to exactly the redacted document, and no string of that document holds a secret that stands apart, however the payload had escaped it; a payload that does not parse, or whose redacted document does not print, comes out as its redaction as text, without it |
| Secrets.LearnedNeverLeaves | crates/ctl/src/secrets.rs:137-218 | a learnable string of a vault document that stands apart is in no string of any document redacted after it was learned, whatever else the registry holds |
| SecretRules.LearnableExactly | crates/ctl/src/secrets.rs:126-128 | a string is learned if and only if its UTF-8 encoding has at least eight bytes and not all of it is blank |
| SecretRules.ReplaceExactly | crates/ctl/src/secrets.rs:171-173 | the first occurrence is replaced, what stands before it is kept, and what follows is treated likewise |
| SecretRules.WithoutOccurrence | crates/ctl/src/secrets.rs:171-173 | a text without an occurrence is kept |
| SecretRules.LeavesExactly | crates/ctl/src/secrets.rs:142-155 | the leaves of a document are exactly the strings that some path of indices and keys leads to |
| SecretRules.RedactedAt | crates/ctl/src/secrets.rs:205-218 | at every path the redacted document has the redaction of what the document has there, and nothing elsewhere |
| SecretRules.RedactedPart | crates/ctl/src/secrets.rs:205-218 | a string becomes its redaction, containers keep size and keys, numbers, Booleans and null stay |
| SecretRules.NothingLearned | crates/ctl/src/secrets.rs:192-203 | with nothing learned every payload is returned as it is, parsed or not |
| PushWorker.ResendIsInvisible | crates/ctl/src/report_http.rs:433-448 | applying a batch again after part of it had been applied leaves the store as one application of everything |
| PushWorker.ReplayPrefix | crates/ctl/PUSH_PROTOCOL.md:68-70 | the upsert of a batch absorbs an earlier upsert of any prefix of it |
| PushWorker.StepKeeps | crates/ctl/src/report_http.rs:386-448 | every step of reporter, worker or network keeps the invariant: order, numbering, the server as a prefix, bounded retries and batches, flush before finalize, finalize last |
| PushWorker.EveryRun | crates/ctl/src/report_http.rs:386-511 | acknowledged, buffered, queued and dropped items are all reported items in order, and the server holds what uploading a prefix once would give, in every run against a network that may apply, drop, reject or lose the reply to any POST |
| PushWorker.AcknowledgedIsStored | crates/ctl/src/report_http.rs:433-448 | in every run each acknowledged item has a row, and within 2^32 reports the row is the item itself if and only if no later item with its dimensions has reached the server |
| PushWorker.StoreIsLatest | crates/ctl/src/report_http.rs:433-448 | in every run and for all dimensions, the row is the latest of the reported items that have reached the server, and there is none without one |
| PushWorker.CompleteAtFinalize | crates/ctl/src/report_http.rs:405-410 | finalize is sent only after the last flush attempt for everything reported before `finish`; if that flush succeeded the server holds exactly those items |
| PushWorker.DroppedOnlyAfterFinish | crates/ctl/src/report_http.rs:295-320 | the items no worker reads are exactly those reported after `finish` |
| PushRuns.ReportedAreReports | crates/ctl/src/report_http.rs:295-316 | in every run the reported items are the reports made: as many, in order, each with its own dimensions and body |
| PushRuns.StoreCarriesReports | crates/ctl/src/report_http.rs:295-316 | in every run the server has a row for given dimensions if and only if one of the reports that reached it has them, and the row carries the body of the last of these |
| PushRuns.HealthyRun | crates/ctl/src/report_http.rs:386-448 | against a network that accepts everything, for all reports: after `finish` the worker sends all of them, in order, in batches of sixty-four and a rest, then finalizes, and the server holds them all |
| PushRuns.FiveAttempts | crates/ctl/src/report_http.rs:477-511 | a batch is tried five times at most: after four failures it is still being tried, after the fifth it is kept in the buffer |
| PushRuns.OneAttempt | crates/ctl/src/report_http.rs:477-511 | a rejection or a success ends the attempts at once |
| PushRuns.TickSends | crates/ctl/src/report_http.rs:420-427 | the flush timer sends whatever is in the buffer |
| PushWorker.SequencesDistinct | crates/ctl/src/report_http.rs:296 | sequence numbers are distinct if and only if at most 2^32 items were reported |
| PushWorker.PushSink.OnTask | crates/ctl/src/report_http.rs:295-320 | the report is queued and recorded with its own dimensions and body under the next number modulo 2^32, and the code's state follows the step relation, also after the worker has ended |
| PushWorker.PushSink.Finish | crates/ctl/src/report_http.rs:322-352 | the finalize marker is queued behind everything reported so far, also when no worker is left to read it |
| PushWorker.PushSink.PostWithRetry | crates/ctl/src/report_http.rs:477-511 | the retry loop makes exactly the attempts the answers call for, at most 1 + 4, and succeeds exactly if an attempt is accepted before one is rejected |
| PushWorker.PushSink.FlushItems | crates/ctl/src/report_http.rs:433-448 | the buffer is cleared if and only if the batch was delivered, and kept whole otherwise |
| PushWorker.PushSink.OnRecv | crates/ctl/src/report_http.rs:398-419 | one receive arm is a run of the step relation, and the worker ends exactly on the marker or a closed channel |
| PushWorker.PushSink.RunWorker | crates/ctl/src/report_http.rs:386-428 | for every sequence of ready arms the loop makes exactly the moves these arms call for, one after the other, until the worker is done |
| AsyncJob.StepKeeps | crates/agent/src/modules/async_job.rs:106-154 | every event keeps the invariant and lets the entry only grow |
| AsyncJob.EveryRun | crates/agent/src/modules/async_job.rs:67-212 | in every interleaving of messages, dispatch return and deadline: captured output is that of the processed messages in order, finished holds exactly with an rc or an error, and an ended watcher leaves a finished job |
| AsyncJob.PollsAgree | crates/agent/src/modules/async_job.rs:214-231 | between two polls finished does not revert, rc and error do not vanish, output only grows |
| AsyncJob.OutputComplete | crates/agent/src/modules/async_job.rs:117-138 | when the watcher ends by dispatch return, stdout and stderr are the concatenation of all emitted chunks |
| AsyncJob.FinishedIsFinal | crates/agent/src/modules/async_job.rs:106-154 | without a timeout rc, error, finish time, changed and skipped of a finished job never change |
| AsyncJob.PromptIsFinal | crates/agent/src/modules/async_job.rs:106-152 | with a timeout or without, the entry of a job whose dispatch returns with its terminal message never changes once a poll reads it as finished, output included |
| AsyncJob.FinalExactly | crates/agent/src/modules/async_job.rs:67-154 | for jobs with at most one terminal message and dispatches that may linger after it: a finished outcome never changes again if and only if the job has no timeout |
| AsyncJob.SuccessThenTimeout | crates/agent/src/modules/async_job.rs:139-152 | a run against a dispatch that lingers: the job is seen finished with rc 0 and later as timed out, with a later finish time |
| AsyncOutcome.WatchedOutcome | crates/agent/src/modules/async_job.rs:106-116 | in every run that is still watched: rc, changed and skipped are those of the last `TaskDone` processed, none and false without one; the error is that of the last `TaskError`; the finish time is that of the first terminal message |
| AsyncOutcome.ReturnedOutcome | crates/agent/src/modules/async_job.rs:117-138 | when the dispatch returns this holds of all messages the job has sent; without any terminal one the error is the internal one and the finish time that of the return |
| AsyncOutcome.TimedOutcome | crates/agent/src/modules/async_job.rs:139-152 | when the deadline passes first the error is the timeout and the finish time that of the deadline, while rc, changed and skipped stay what was told |
| AsyncOutcome.EndedBy | crates/agent/src/modules/async_job.rs:106-154 | no run ends otherwise, and an ended one stays as that event left it |
| AsyncOutcome.PollAfterReturn | crates/agent/src/modules/async_job.rs:214-271 | a poll after the return reports the exit code and the changed flag of the last `TaskDone` sent, whatever the job printed |
| AsyncJob.StatusIsHonest | crates/agent/src/modules/async_job.rs:231-271 | the envelope's own keys have the entry's values whatever the job printed: id, started, finished, and of a finished job rc or -1, changed, failed, error_code and msg |
| AsyncJob.OutputShows | crates/agent/src/modules/async_job.rs:231-271 | standard error of a finished job is always reported, standard output unless it is a JSON object |
| AsyncJob.PrintedKeysShow | crates/agent/src/modules/async_job.rs:231-271 | a printed JSON object is reported under every key that is not one of the envelope |
| AsyncJob.Job.StashMessage | crates/agent/src/modules/async_job.rs:188-212 | the entry takes rc, changed and skipped from a `TaskDone`, code and message from a `TaskError`, and the finish time only if it has none, as the step relation says |
| AsyncJob.JobTable.Create | crates/agent/src/modules/async_job.rs:53-60 | a fresh entry replaces whatever the sequence number named |
| AsyncJob.NestedStart | crates/agent/src/modules/async_job.rs:76-88 | a nested start under the same sequence number takes over the slot: a poll then reads the inner job, while the messages of the outer one go where no poll reads them |
| AsyncJob.JobWatcher.OnMessage | crates/agent/src/modules/async_job.rs:109-116 | the receive arm follows the step relation |
| AsyncJob.JobWatcher.OnDispatchReturn | crates/agent/src/modules/async_job.rs:117-138 | the dispatch arm drains, settles and ends as the step relation says |
| AsyncJob.JobWatcher.OnDeadline | crates/agent/src/modules/async_job.rs:139-152 | the deadline arm follows the step relation |
| Utf8.AutomatonIsGrammar | crates/ctl/src/template.rs:326-333 | a byte-by-byte automaton accepts exactly the sequences of section 4 of RFC 3629 |
| Utf8.DecodesExactlyValid | crates/ctl/src/vault.rs:49 | decoding succeeds exactly on well-formed UTF-8 |
| Utf8.DecodeEncode | crates/ctl/src/vault.rs:49 | decoding undoes encoding for every string |
| Utf8.EncodeDecode | crates/ctl/src/vault.rs:49 | and encoding undoes decoding: the well-formed byte sequences are exactly the encodings |
| Utf8.LengthIsBytes | crates/ctl/src/secrets.rs:126-128 | `len` counts the bytes of that encoding |
| Text.WhitespaceExactly | crates/ctl/src/secrets.rs:126-128 | a blank is one of the twenty-five code points with the Unicode property White_Space |
| Text.LinesExactly | crates/ctl/src/template.rs:1350 | a line ends at a newline, with or without one carriage return before it, or at the end of a text that ends in none |
| Jinja.FastPathIsSlowPath | crates/ctl/src/template.rs:186-198 | returning early on sources without a candidate is what the scanner would have returned |
| Jinja.NoCandidateNoChange | crates/ctl/src/template.rs:186-325 | from any state the scanner copies a source without a candidate |
| Jinja.RewriteIdempotent | crates/ctl/src/template.rs:227-325 | from any state, scanning the output changes nothing |
| Jinja.PrepareIdempotent | crates/ctl/src/template.rs:180-333 | preparing a prepared source changes nothing |
| Jinja.OutsideKept | crates/ctl/src/template.rs:228-325 | text, comment and string-literal bytes are the same, in the same order, before and after |
| Jinja.SolidKept | crates/ctl/src/template.rs:228-325 | in code too, every byte except dots and square brackets is kept in place |
| Jinja.GrowsBySubscripts | crates/ctl/src/template.rs:291-303 | the output is longer by one byte per rewritten subscript |
| Jinja.RewriteKeepsUtf8 | crates/ctl/src/template.rs:227-325 | from any decoder state a source that ends between characters is rewritten to one that does |
| Jinja.PrepareKeepsUtf8 | crates/ctl/src/template.rs:326-333 | valid UTF-8 stays valid, so the final `expect` cannot fail |
| Jinja.FindCandidate | crates/ctl/src/template.rs:186-195 | the search loop finds a candidate if and only if there is one |
| Jinja.PrepareJinjaSource | crates/ctl/src/template.rs:180-333 | the function as written computes the preparation |
| Jinja.RunScanner | crates/ctl/src/template.rs:225-325 | the four-state loop, whose look-back is at its own output, computes the rewriting |
| JinjaRules.Opening | crates/ctl/src/template.rs:231-250 | `{{` and `{%` enter code and `{#` a comment, stated with the bytes |
| JinjaRules.TextByte | crates/ctl/src/template.rs:231-250 | any other byte of text is copied |
| JinjaRules.CommentByte | crates/ctl/src/template.rs:251-261 | `#}` ends a comment, any other byte of it is copied |
| JinjaRules.StringByte | crates/ctl/src/template.rs:308-323 | a backslash takes the next byte with it, the opening quote ends the string, any other byte is copied |
| JinjaRules.Closing | crates/ctl/src/template.rs:262-276 | `}}` and `%}` leave code, a quote of either kind opens a string |
| JinjaRules.CodeByte | crates/ctl/src/template.rs:277-307 | any other byte of code that is not a dot in front of a digit is copied |
| JinjaRules.Subscript | crates/ctl/src/template.rs:277-304 | behind an ASCII letter, a digit, `_`, `]` or `)`, a dot and all the digits after it become the digits in square brackets |
| JinjaRules.NoSubscript | crates/ctl/src/template.rs:286-307 | behind any other byte, and at the start, dot and digits are copied |
| JinjaRules.SubscriptExample | crates/ctl/src/template.rs:180-333 | the whole rewriting of `{{a.0}}` is `{{a[0]}}` |
| Braces.BracesBalance | crates/ctl/src/template.rs:98-133 | the loop computes the scanner's verdict, skipped escapes at the end of the text included |
| Braces.AcceptsIsNested | crates/ctl/src/template.rs:98-133 | the depth counter and quote flag accept exactly the texts with a nesting of braces outside string literals and no tag opener |
| Braces.StrayBraceRefused | crates/ctl/src/template.rs:80-84 | a brace that closes nothing is refused whatever follows |
| Braces.BalancedCompose | crates/ctl/src/template.rs:96-133 | balanced texts can be joined, and put in braces unless that opens a tag |
| Glob.CompilePreservesMeaning | crates/ctl/src/host_pattern.rs:340-390 | for every glob without `[`, the emitted regex text parses, under the regex grammar, to something that matches exactly the names the glob matches with `*` and `?` stopping at newlines, and so exactly the glob's names among those without newline |
| Glob.BodyParses | crates/ctl/src/host_pattern.rs:341-384 | the emitted text parses back to the glob's own pieces: the escaping is complete |
| Glob.NodesMatch | crates/ctl/src/host_pattern.rs:346-347 | matching those pieces is matching the glob |
| Glob.StarTakesARun | crates/ctl/src/host_pattern.rs:346-347 | `*` matches exactly when some run of characters can be taken for it |
| Glob.LiteralGlob | crates/ctl/src/host_pattern.rs:380-384 | a glob without wildcards matches exactly its own text |
| Glob.ClassExactly | crates/ctl/src/host_pattern.rs:348-379 | a class is passed on as a class: `!` or `^` at its start becomes `^`, backslash, slash and inner `^` are escaped, the rest is kept up to the first `]` |
| Glob.NewlineSplits | crates/ctl/src/host_pattern.rs:346-347 | for names with a newline the compiled `*` and the glob differ |
| Glob.FailsExactlyUnclosed | crates/ctl/src/host_pattern.rs:348-379 | the translation reports unbalanced brackets exactly when a bracket class is never closed |
| Glob.FailsExactly | crates/ctl/src/host_pattern.rs:340-390 | for every verdict of the regex engine, compiling fails with unbalanced brackets exactly on an unclosed class, with a bad regex exactly when the engine refuses the emitted text, and otherwise gives that text |
| Glob.ClasslessNeverFails | crates/ctl/src/host_pattern.rs:380-390 | an engine that accepts escaped literals, `.` and `.*` accepts every glob without a class |
| Glob.ClosedYetRefused | crates/ctl/src/host_pattern.rs:348-390 | the closed classes `[]` and `[z-a]` reach the engine as an empty class and a backward range, and fail with it |
| Glob.GlobToRegex | crates/ctl/src/host_pattern.rs:340-390 | the nested loops compute the compilation, the engine's verdict included |
| HostPattern.TokenizeLoop | crates/ctl/src/host_pattern.rs:202-239 | the loop over characters, depth and current token computes the split, errors included |
| HostPattern.TokenizeJoin | crates/ctl/src/host_pattern.rs:202-239 | splitting undoes joining any trimmed, non-empty, bracket-balanced tokens with any mix of `,` and `:` |
| HostPattern.SplitsExactly | crates/ctl/src/host_pattern.rs:202-239 | any pieces with balanced brackets, no separator outside them and something but blanks, joined by any mix of `,` and `:`, are split into exactly these pieces without the blanks around them |
| HostPattern.SplitFails | crates/ctl/src/host_pattern.rs:202-239 | the first bad piece decides: a blank one is an empty term, a bracket that closes nothing or one that never closes is unbalanced |
| HostPattern.SplitCovers | crates/ctl/src/host_pattern.rs:202-239 | and these are all cases: every text is some pieces, each with its separator, and then a last piece, a blank one, one whose bracket closes nothing, or one left open |
| HostPattern.IndexFromEnd | crates/ctl/src/host_pattern.rs:457-489 | a negative index or bound counts from the end |
| HostPattern.IndexExactly | crates/ctl/src/host_pattern.rs:457-489 | a slice is the stretch between the positions its bounds point to, a single index the element it points to, and nothing when it points outside |
| HostPattern.OnePosition | crates/ctl/src/host_pattern.rs:457-489 | every bound points to exactly one position of the list or its end |
| HostPattern.IndexSelects | crates/ctl/src/host_pattern.rs:457-489 | a host is in the indexed list if and only if it stands at a position the index selects |
| HostPattern.SlicesPartition | crates/ctl/src/host_pattern.rs:457-489 | for every bound, `[:b]` and `[b:]` split the list without loss or overlap |
| HostPattern.ResolveExactly | crates/ctl/src/host_pattern.rs:160-195 | the result has no duplicates, and a host is in it if and only if some union term names it and every later intersection names it and every later exclusion does not; what a term names is said with quantifiers over groups, hosts and, for an index, positions |
| HostPattern.LastTerm | crates/ctl/src/host_pattern.rs:160-195 | what a further term does to the resolution of any terms before it: a union appends, in their own order and only if new, the hosts it names; the others filter by them |
| HostPattern.ExpandExactly | crates/ctl/src/host_pattern.rs:394-453 | a term expands to exactly the hosts it names, said with quantifiers over groups and hosts: the members of the first group of that name before a host of it, members of matching groups and matching hosts for a pattern, each once |
| HostPattern.FindGroupExactly | crates/ctl/src/host_pattern.rs:394-428 | a group is found under exactly the names groups have, and what is found are the members of the first group with that name |
| HostPattern.GroupOrder | crates/ctl/src/host_pattern.rs:394-428 | the members of a group come in the group's own order, and `all` without such a group is the hosts in inventory order |
| HostPattern.FirstAppearance | crates/ctl/src/host_pattern.rs:430-434 | what is added comes in the order of its first appearance, behind what was there |
| HostPattern.PatternOrder | crates/ctl/src/host_pattern.rs:435-453 | a pattern lists the members of its groups in inventory order and then the hosts it matches, each once |
| HostPattern.FirstPosition | crates/ctl/src/host_pattern.rs:430-434 | of two hosts the one that appears first comes first |
| HostPattern.ExpandViaRegex | crates/ctl/src/host_pattern.rs:435-453 | the loops over groups, members and hosts, sharing one list and one set, compute the expansion |
| HostPattern.ExpandTermKind | crates/ctl/src/host_pattern.rs:394-428 | the dispatch with its own duplicate filter computes the expansion, so exactly the hosts the term names |
| HostPattern.OrderKept | crates/ctl/src/host_pattern.rs:170-193 | a union only appends, the other operators only remove: the order of hosts never changes |
| HostPattern.ResolveLoop | crates/ctl/src/host_pattern.rs:160-195 | the loop with its list and set in step computes the resolution |
| HostTerm.TermRoundTrip | crates/ctl/src/host_pattern.rs:243-279 | every writable term, with its operator, name, glob or regex, and index or slice, is written as one token that parses to that very term, for every verdict of the regex engine |
| HostTerm.WritableExactly | crates/ctl/src/host_pattern.rs:243-304 | a term is writable if and only if some token parses to it |
| HostTerm.PatternRoundTrip | crates/ctl/src/host_pattern.rs:131-155 | every non-empty list of writable terms that starts with a union, written as a comma list, parses to exactly these terms |
| HostTerm.PatternExactly | crates/ctl/src/host_pattern.rs:131-155 | these lists are exactly the results of parsing |
| HostTerm.PatternBack | crates/ctl/src/host_pattern.rs:131-155 | so every pattern that parses starts with a union and can be written back as a comma list that parses to the same terms |
| HostTerm.TermBack | crates/ctl/src/host_pattern.rs:243-279 | so a parsed term written back is one token and parses to the same term |
| HostTerm.TokensAreTokens | crates/ctl/src/host_pattern.rs:202-239 | every token of a successful split is trimmed, non-empty and bracket-balanced, so it can be joined again |
| HostTerm.SplitIndexShape | crates/ctl/src/host_pattern.rs:284-304 | what is cut off as an index is the last bracket pair, holds numbers that fit i64, and leaves a balanced rest |
| HostTerm.InnerBack | crates/ctl/src/host_pattern.rs:306-332 | every index and slice with i64 bounds, absent bounds included, reads back from its written form |
| HostTermRules.KindExactly | crates/ctl/src/host_pattern.rs:263-276 | a `~` makes a regex, `all` and `*` name everything, any other body with `*`, `?` or `[` is a glob, and any other is a name |
| HostTermRules.NumberExactly | crates/ctl/src/host_pattern.rs:306-332 | digits with or without sign, leading zeros included, are their number if it fits 64 bits |
| HostTermRules.OnlyNumbers | crates/ctl/src/host_pattern.rs:306-332 | and nothing else is a number |
| HostTermRules.TermBlanks | crates/ctl/src/host_pattern.rs:243-279 | blanks behind the operator, around the name, before the index and at the end make no difference |
| HostTermRules.IndexBlanks | crates/ctl/src/host_pattern.rs:306-332 | nor do blanks inside the brackets, around an index or around either bound of a slice |
| HostTermRules.EmptyForms | crates/ctl/src/host_pattern.rs:131-155 | a pattern of blanks is empty; an operator alone, and an index without a name, are an empty term |
| HostTermRules.BadPattern | crates/ctl/src/host_pattern.rs:131-239 | a pattern with a bad piece is refused wherever it stands: a blank one is an empty term, a bracket that closes nothing or never closes is unbalanced |
| HostTermRules.LeadingOperator | crates/ctl/src/host_pattern.rs:141-151 | a first term with `&` or `!` is refused |
| HostTermRules.FirstErrorWins | crates/ctl/src/host_pattern.rs:131-155 | terms are read in order and the first that cannot be read decides the error |
| HostTerm.ParsePatternLoop | crates/ctl/src/host_pattern.rs:131-155 | the loop reports the first error in token order and otherwise all terms |
| Vault.HeaderExactly | crates/ctl/src/vault.rs:115-139 | a header is accepted if and only if, trimmed, it is the prefix, version 1.1 or 1.2, the one cipher, and possibly a label |
| Vault.HexRoundTrip | crates/ctl/src/vault.rs:65-76 | hex decoding undoes hex encoding |
| Vault.UnpadPad | crates/ctl/src/vault.rs:100-111 | the padding check and cut undo the padding, for every plaintext (section 6.3 of RFC 5652) |
| Vault.KeystreamTwice | crates/ctl/src/vault.rs:94-97 | applying the keystream twice gives the buffer back |
| Vault.LinesOf | crates/ctl/src/vault.rs:49-65 | the first line is the header and the rest of the text reaches the decoder without its blanks |
| Vault.UnwrapWrap | crates/ctl/src/vault.rs:194-201 | collecting the body undoes the 80-column wrapping |
| Vault.Unwrapped | crates/ctl/src/vault.rs:48-111 | decrypting a made file under any password comes down to the MAC check and padding of the original ciphertext: no layer in between can fail or change a byte |
| Vault.RoundTrip | crates/ctl/src/vault.rs:48-201 | decryption undoes encryption for every plaintext, password and salt and every key derivation, MAC and keystream |
| Vault.WrongPassword | crates/ctl/src/vault.rs:88-92 | another password is reported as a MAC mismatch if and only if the two MACs of the ciphertext differ |
| Vault.LayoutDoesNotMatter | crates/ctl/src/vault.rs:54-65 | line breaks and blanks in the body have no effect on the result |
| Vault.OpensExactly | crates/ctl/src/vault.rs:78-111 | for a file of any salt, MAC and ciphertext, whoever made it: a mismatch if the MAC under derived bytes 32 to 63 differs, else the ciphertext, each byte XORed with the keystream of bytes 0 to 31 under bytes 64 to 79, without its padding |
| VaultRules.UnpadExactly | crates/ctl/src/vault.rs:100-111 | a buffer is unpadded to p if and only if it is p and then n bytes of value n, n from 1 to 255 |
| VaultRules.UnpadFails | crates/ctl/src/vault.rs:100-111 | every other buffer is a padding error |
| VaultRules.PadExactly | crates/ctl/src/vault.rs:172-176 | padding adds n bytes of value n, 1 <= n <= 16, up to a multiple of sixteen |
| VaultRules.HexExactly | crates/ctl/src/vault.rs:65-76 | a text decodes to given bytes if and only if it is their hex up to the case of letters |
| VaultRules.HeaderErrors | crates/ctl/src/vault.rs:115-139 | the first thing wrong with a header decides: the prefix, a missing cipher, the version, the cipher |
| VaultRules.PartsAreNewlines | crates/ctl/src/vault.rs:67-73 | the number of parts is one more than the number of newlines |
| VaultRules.BodyErrors | crates/ctl/src/vault.rs:65-73 | outer hex, inner UTF-8 and the number of parts are checked in this order, each with its own error |
| VaultRules.PartErrors | crates/ctl/src/vault.rs:74-76 | a part that is not hex is an error before any key is derived |
| VaultRules.SealsExactly | crates/ctl/src/vault.rs:164-201 | what an encrypted file holds: the salt, the MAC of the ciphertext under derived bytes 32 to 63, and the padded plaintext XORed with the keystream |
| VaultRules.WrapExactly | crates/ctl/src/vault.rs:194-201 | a newline stands behind every eightieth character and behind the last |
| Vault.StripPadding | crates/ctl/src/vault.rs:100-111 | the checks and the truncation compute the unpadding, errors included |
| Vault.DecryptFile | crates/ctl/src/vault.rs:48-111 | the function as written computes the decryption, errors in order |
| Vault.EncryptForTest | crates/ctl/src/vault.rs:164-201 | the function as written computes the encryption |
| Dotenv.ExpandEscape | crates/ctl/src/template.rs:1405-1466 | expansion undoes writing each `$` as `\$`, under every environment |
| Dotenv.ParsePrintedLine | crates/ctl/src/template.rs:1350-1376 | a line printed with double quotes reads back as its key and value, whatever came before |
| Dotenv.ParsePrint | crates/ctl/src/template.rs:1348-1379 | parsing undoes printing any list of entries with valid keys and newline-free values |
| Dotenv.DistinctEntries | crates/ctl/src/template.rs:1376 | with distinct keys every entry is in the result and nothing else is |
| Dotenv.LinesInOrder | crates/ctl/src/template.rs:1348-1379 | the result of a file depends on its lines one after the other |
| Dotenv.BracedReference | crates/ctl/src/template.rs:1426-1463 | a braced reference anywhere in a value is replaced by what the environment holds, or by nothing |
| Dotenv.BareReference | crates/ctl/src/template.rs:1446-1463 | an unbraced one takes the longest run of name characters |
| Dotenv.NotAReference | crates/ctl/src/template.rs:1439-1461 | an unterminated brace and a lone dollar are kept as written |
| Dotenv.ForwardReference | crates/ctl/src/template.rs:1348-1379 | a reference sees the lines before it only: without an earlier definition it is empty, whatever follows |
| Dotenv.SingleQuoted | crates/ctl/src/template.rs:1364-1366 | single-quoted values are taken literally |
| Dotenv.NotExport | crates/ctl/src/template.rs:1355 | no assignment to a valid key is mistaken for an `export` line |
| DotenvRules.KeyExactly | crates/ctl/src/template.rs:1382-1389 | a key is one or more of the sixty-three characters `A-Z a-z 0-9 _`, the first no digit |
| DotenvRules.LineBlanks | crates/ctl/src/template.rs:1350-1363 | blanks before a line, around its key and behind its value make no difference, nor does `export `, for every key but `export` with a blank behind it |
| DotenvRules.ExportIsTaken | crates/ctl/src/template.rs:1355 | that one is taken for the prefix, and the line defines nothing |
| DotenvRules.SkippedLines | crates/ctl/src/template.rs:1351-1362 | blank lines, comments, lines without `=` and lines whose key is none define nothing |
| DotenvRules.ValueExactly | crates/ctl/src/template.rs:1363-1375 | one pair of matching quotes is taken off, only single quotes keep references from being expanded, and all else is kept |
| DotenvRules.ExpandExactly | crates/ctl/src/template.rs:1405-1466 | outside references `\$` is a dollar and every other character is itself |
| Dotenv.ExpandEnvRefs | crates/ctl/src/template.rs:1405-1466 | the iterator loops compute the expansion |
| Dotenv.ParseDotenv | crates/ctl/src/template.rs:1348-1379 | the loop over lines computes the parse |
| Clock.OffsetError | crates/ctl/src/ssh.rs:363-368 | the offset estimate is within half of the two delays, rounded up, of the true offset, and the reported round trip is their sum unless that needs more than 64 bits (section 8 of RFC 5905) |
| Clock.SymmetricIsExact | crates/ctl/src/ssh.rs:363-368 | with equal delays the estimate is exact |
| Clock.NegativeRoundTrip | crates/ctl/src/ssh.rs:363-368 | readings that leave less than no time for the way are reported as no way at all |
| Clock.RunIsWrappedSum | crates/ctl/src/run_metrics.rs:108-114 | counters that wrap at every step hold the true sums modulo their width |
| Clock.RunBalances | crates/ctl/src/run_metrics.rs:87-126 | over every run agent, outbound and inbound time sum to wall time plus the total skew, exactly while the sums fit and modulo 2^64 always; the clock offsets cancel |
| Clock.NoSkew | crates/ctl/src/run_metrics.rs:95-106 | the skew is zero when no clock runs backwards and the one-way times fit i64 |
| Clock.TotalsAreTimes | crates/ctl/src/run_metrics.rs:87-126 | given the true offsets, the counters of every run hold the true number of operations, work and time on either way, as long as these fit |
| Clock.SaturatedIsSum | crates/ctl/src/run_metrics.rs:116-125 | a counter that saturates at every step holds the sum or the greatest 64-bit number |
| Clock.RunMetrics.Record | crates/ctl/src/run_metrics.rs:87-126 | one call adds one sample to the totals and to its own operation's saturating counters, and touches no other |

## Left out

- Float and signed fixed-width methods of the codec (`write_float32`, `write_int16` and their like): bit casts around
  the unsigned ones.
- The string names of the varlength encodings: a program names its codec directly, so the unknown-name error is not
  modelled.
- BitStreamDecoding.BitStreamDecoder.ReadBytesVec: `byte_offset + n` is a sum of naturals; that it overflows `usize` for
  n near the top of its range is not modelled.
- BitStreamEncoding.BitStreamEncoder.WriteAligned: one method for the six aligned writers; alignment is a precondition,
  as in the source's debug assertions.
- Crc32.Crc32Exactly: for messages with fifteen or more bytes from their first hit on, the condition is that the errors
  met add up to nothing (`CrcCancellation.RightExactly`); which sets of hits do is not listed.
- Secrets.SecretRegistry.RedactValue: the source rewrites the document in place; the model returns the new document.
- Secrets.PayloadIsClean: object keys are never redacted, in the source as in the model, so the claim is about string
  values; the JSON parser and printer are parameters.
- The lock around the registry: reads and writes are taken one at a time.
- HTTP, serialization, backoff times, lease renewal and the opening handshake of the push worker; a renewal does
  nothing to the model's state.
- PushWorker.EveryRun: a POST is applied at its attempt or never. A request that the client has given up and the server
  applies later, behind newer batches, would put older rows back; such runs are not modelled.
- PushWorker.PushSink.Finish: the summary carried by the finalize request is not modelled.
- AsyncJob.EveryRun: check mode, which starts no watcher, and the capacity of the message channel are not modelled; the
  arms may fire in any order, which includes the source's biased order.
- AsyncJob.StatusIsHonest: the JSON of the job's own output is a parameter, and the lossy conversion of output to text
  is not modelled.
- `single_expression_candidate`: a few prefix and suffix strips around `Braces.BracesBalance`.
- Rendering of templates, and what the rewriter means to Jinja: `{{ 1.5 }}` becomes `{{ 1[5] }}`, and a code block ends
  at the first `}}` even inside a nested dict.
- Glob.CompilePreservesMeaning: the text a bracket class is compiled to is given exactly (`Glob.ClassExactly`), but not
  what it matches; whether the regex engine accepts an emitted text is a parameter.
- HostTerm.PatternBack: whether a regex compiles is a parameter.
- HostPattern.ResolveExactly: a compiled glob or regex is a predicate on names.
- Vault.RoundTrip: key derivation, MAC and keystream are arbitrary functions, the first of eighty bytes, so nothing is
  said about their strength;
  the vault label and password lookup are not modelled.
- Clock.RunMetrics.Record: the atomics are taken one at a time; `snapshot` copies fields.
- Transport, inventory loading, playbooks, the orchestrator, module execution and the generated wire types.
