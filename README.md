# explorebits in Dafny

A model of `explorebits.py`. The script is a disassembler for Xilinx 7-series
configuration bitstreams. It keeps one byte cursor, `position`, over a
bitstream held in memory. It uses the cursor for several jobs:

- find the sync word `AA 99 55 66`, trying the words that begin at offsets 0
  to 500 inclusive;
- decode Type-1 and Type-2 packet headers and the names of the
  configuration registers;
- skip or dump payloads, including the CIPHERTEXT and BSPI special cases;
- find the first Type-2 header;
- dump 101-word configuration frames, numbered by a second global,
  `framecount`.

A separate helper, `bitflip`, reverses the bits of every big-endian word of a
buffer.

The model has eight modules:

- `Wrappers`: the `Option` type.
- `Bytes`: big-endian reads, including the short reads at the end of the
  buffer, and bit strings.
- `Bitflip`: `bitflip`, as a loop over the buffer against a recursive
  specification `Flipped`.
- `Registers`: `decode_reg` and the SPI read modes of BSPI.
- `Packets`: the header fields and `Parse`, a pure specification of one
  `parseframe` call. `Parse` gives where the cursor ends and what is printed.
- `Locate`: specifications of the sync scan, the Type-2 scan and the frame
  dump of `main`.
- `Container`: the header and trailer slices taken off `.bin` and `.clr` files.
- `Explore`:
  - the class `Explorer` holds the bitstream and the two globals;
  - its methods are the script's functions, loops included, and each method
    is proved against the specification functions above;
  - `Disassemble` is `main` once the file has been read.

Printing becomes a returned trace of `Event` values, one per printed line,
in order. A `dumpframe` record is one event, although the script prints it
with one call per word. A 32-bit word is a `nat` below 2^32. Masks and shifts are written as
division and remainder by powers of two.

A read at `p` is the big-endian value of the bytes Python's slice
`buf[p:p+4]` returns. Near the end of the buffer that slice is shorter or
empty, and such a read gives a smaller value or 0, not an error (`WordAt`).

## Model

| member | source | states |
|---|---|---|
| Bytes.BeValue | explorebits.py:35 | `int.from_bytes` of n bytes is below 256^n |
| Bytes.BeValueOfBeBytes | explorebits.py:35-37 | reading back bytes written by `to_bytes(n)` gives the value that was written |
| Bytes.BeBytesOfBeValue | explorebits.py:35-37 | writing a value read from n bytes with `to_bytes(n)` gives the same n bytes |
| Bytes.BeValue4 | explorebits.py:70 | a four-byte read is b0·2^24 + b1·2^16 + b2·2^8 + b3 |
| Bytes.WordAt | explorebits.py:133 | a read is below 2^32; a read that runs past the end is below 2^24; a read at or past the end is 0 |
| Bytes.WordAtValue | explorebits.py:133 | inside the buffer a read is the value of the four bytes at p; a read that runs past the end is the value of the bytes left from p |
| Bytes.Reverse | explorebits.py:37 | `s[::-1]` has the same length, and element i is element n-1-i of s |
| Bytes.ReverseBits | explorebits.py:36-37 | reversing the bits of a width-bit value gives a width-bit value |
| Bytes.FromBitsOfToBits | explorebits.py:36-37 | parsing the zero-padded binary text of a value gives the value back |
| Bytes.ToBitsOfFromBits | explorebits.py:36-37 | formatting the parsed value of a bit string at its own width gives the same bit string |
| Bytes.ReverseBitsReverses | explorebits.py:36-37 | the bits of the result are the bits of the input in reverse order |
| Bytes.ReverseBitsInvolution | explorebits.py:36-37 | reversing the bits twice gives the value back |
| Bitflip.FlipChunk | explorebits.py:35-37 | one loop pass always writes exactly k bytes, whatever the length of its chunk |
| Bitflip.Flipped | explorebits.py:31-40 | the output is empty exactly when the input is; its length and its words are given by `FlippedLength` and `Flipped32Chunk` |
| Bitflip.Bitflip | explorebits.py:26-40 | width 0 returns the input unchanged; otherwise the output is `Flipped`: the input cut into k-byte chunks from the front, each one flipped |
| Bitflip.FlippedLength | explorebits.py:34-38 | the output is at least as long as the input and less than one word longer |
| Bitflip.Flipped32Length | explorebits.py:26-40 | at width 32, a buffer of whole words keeps its length |
| Bitflip.Flipped32Chunk | explorebits.py:34-38 | at width 32, output word j is input word j flipped |
| Bitflip.Flipped32Word | explorebits.py:35-37 | at width 32, each output word, read big-endian, is the bit reversal of the input word at the same offset |
| Bitflip.FlipChunkTwice | explorebits.py:35-37 | flipping a full chunk twice gives it back |
| Bitflip.Flipped32Twice | explorebits.py:26-40 | at width 32, a buffer of whole words flipped twice is unchanged |
| Registers.DecodeReg | explorebits.py:83-127 | the name is not UNKNOWN exactly for the 21 listed codes; CIPHERTEXT exactly for 0b11010; BSPI exactly for 0b11111 |
| Registers.DecodeRegTable | explorebits.py:83-127 | `decode_reg` agrees with the register table, and gives UNKNOWN for every code outside it |
| Registers.BspiMode | explorebits.py:177-189 | an SPI mode is shown exactly when the value is one of 0x0B, 0x3B, 0x6B, 0x0C, 0x3C, 0x6C, and it is the mode the opcode table gives that opcode: fast read x1, dual or quad output fast read, each with 24-bit or 32-bit addresses |
| Packets.KindOf | explorebits.py:136-141 | a word is Type-1 exactly when its top three bits are 001 and Type-2 exactly when they are 010 |
| Packets.Opcode | explorebits.py:144 | the opcode field has two bits |
| Packets.Register | explorebits.py:145 | the register field has 14 bits |
| Packets.Type1Count | explorebits.py:146 | the Type-1 count has 11 bits |
| Packets.Type2Count | explorebits.py:194 | the Type-2 count has 26 bits |
| Packets.OpName | explorebits.py:148-155 | the opcode names NOP exactly for 0, Read or Write exactly for 1 and 2, and Reserved exactly above 2 |
| Packets.Header | explorebits.py:157-162 | Read and Write print the access line with the register name and count, followed by the raw field exactly when the register is unknown; NOP and Reserved print only the opcode name |
| Packets.Body | explorebits.py:165-172 | below 32 words, exactly count payload lines are printed; from 32 on, only the skip notice |
| Packets.Quirk | explorebits.py:174-189 | CIPHERTEXT reports the length word, BSPI the SPI mode its table gives the value (or nothing), any other register nothing |
| Packets.FieldsOfAssemble | explorebits.py:144-146 | a header assembled from in-range fields is a Type-1 word whose fields read back unchanged and whose bits 12-11 are zero |
| Packets.AssembleOfFields | explorebits.py:144-146 | a Type-1 word is re-assembled from its three fields exactly when its bits 12-11 are zero |
| Packets.Words | explorebits.py:166-169 | the payload words are n reads at consecutive word offsets |
| Packets.PayloadEvents | explorebits.py:169 | one payload print per word, in order |
| Packets.LastPayload | explorebits.py:164-169 | `data` is the last payload word read, and -1 when none is read |
| Packets.Parse | explorebits.py:130-207 | one `parseframe` call never leaves the cursor before the command word |
| Packets.Type1Rest | explorebits.py:143-189 | the Type-1 branch leaves the cursor no earlier than its command word |
| Packets.ParseUnknown | explorebits.py:206-207 | a word of neither type moves the cursor by exactly one word and prints UNKNOWN TYPE |
| Packets.Type1Trace | explorebits.py:157-189 | a Type-1 trace is the command, the header line, the payload and then the CIPHERTEXT or BSPI follow-up |
| Packets.ParsePayloadType1 | explorebits.py:164-172 | Type-1, any opcode: below 32 words, exactly the count words are printed in order; from 32 on, none are printed and the skip is reported |
| Packets.ParsePayloadType2 | explorebits.py:193-204 | the same threshold for Type-2, with the 26-bit count |
| Packets.ParsePayload | explorebits.py:165-204 | the threshold for both packet types: the payload printed is exactly the words below 32, and the skip is reported exactly from 32 on |
| Packets.ParseCursor | explorebits.py:135-204 | the cursor moves 4 + 4·count bytes; for CIPHERTEXT it moves a further 4·data |
| Packets.CiphertextWithoutData | explorebits.py:164-176 | CIPHERTEXT with no payload word read (count 0 or at least 32): -1 is reported and the cursor ends at p + 4·count, one word short; with count 0 that is the command word itself |
| Packets.ParseBspi | explorebits.py:177-189 | BSPI moves the cursor 4 + 4·count, like any other register; the SPI modes shown are exactly the mode the last payload word selects, and none when it is not a read opcode |
| Packets.CiphertextExample | explorebits.py:174-176 | a CIPHERTEXT write of one word 5 moves the cursor 28 bytes |
| Locate.WordIsSync | explorebits.py:70-72 | a read equals the sync word exactly where the four bytes AA 99 55 66 begin |
| Locate.FirstSyncFrom | explorebits.py:69-77 | a scan from offset k that finds something finds an offset between k and 500 that holds the sync word |
| Locate.FirstSync | explorebits.py:66-77 | a scan that finds something finds an offset up to 500 that holds the sync word |
| Locate.FirstSyncFromSound | explorebits.py:69-77 | the offset found holds the sync word, and no earlier offset tried does |
| Locate.FirstSyncFromComplete | explorebits.py:69-77 | a sync word at an offset up to 500 is found, at that offset or earlier |
| Locate.FirstSyncSpec | explorebits.py:66-77 | the scan finds the first sync word that begins at offsets 0 to 500, and finds none exactly when no sync word begins there |
| Locate.FindType2 | explorebits.py:217-225 | the cursor stops at least one word past where the scan started |
| Locate.FindType2Found | explorebits.py:217-227 | the scan stops just past a word-aligned word whose top bits are 010 |
| Locate.FindType2Sound | explorebits.py:217-225 | no earlier word-aligned word from the start is Type-2 |
| Locate.FindType2Complete | explorebits.py:217-225 | the first Type-2 word at index i from p leaves the cursor at p + 4(i+1) |
| Locate.FindType2None | explorebits.py:217-225 | when nothing is found, no word-aligned read from p inside the buffer is Type-2 |
| Locate.Type2InPayload | explorebits.py:217-225 | the scan tests payload words as headers: a FAR write whose payload word has Type-2 top bits stops the scan on that payload word, although `parseframe` reads it as data |
| Locate.Frames | explorebits.py:283-284 | a dump of k frames prints exactly k frame records |
| Locate.FramesRecord | explorebits.py:242-247 | frame record i of a dump has index f+i and holds the 101 words at s + 404·i |
| Locate.FramesTo | explorebits.py:283-284 | the number of frames dumped is the least k with 404·k at least the distance to the end |
| Locate.FramesToUnique | explorebits.py:283-284 | that k is unique |
| Locate.FrameBoundAsWritten | explorebits.py:281 | with the end as `position + count`, a 202-word run, two frames, gets one frame dumped |
| Locate.FrameBoundIntended | explorebits.py:281 | with the end as `position + 4·count`, a run of whole frames is dumped frame by frame and the cursor ends exactly at its end |
| Locate.DumpOf | explorebits.py:280-284 | the count is found exactly when a Type-2 header is; without one, nothing is printed and no frame is dumped; with one, the Type-2 report and one record per frame are printed |
| Locate.DumpOfEnd | explorebits.py:280-284 | once a Type-2 header is found just before s, the dump ends at s plus 404 bytes per frame dumped |
| Locate.FramesToCovers | explorebits.py:283-284 | the frames dumped towards an end d bytes ahead reach it and overshoot by less than one frame |
| Locate.DumpCoverage | explorebits.py:280-284 | with the end in bytes, the cursor stops at the first frame boundary at or past the end of the run; as written, it stops at the first boundary at or past `start + count` |
| Container.SliceBound | explorebits.py:58 | a slice bound counts from the end when negative and is clamped to the length |
| Container.PySlice | explorebits.py:48 | a slice is empty when its bounds cross; otherwise it holds the elements between them |
| Container.StripPlain | explorebits.py:48 | the stripped file is 0x34 bytes shorter, or empty when the file is shorter than the header |
| Container.StripClear | explorebits.py:58 | the stripped file is 0x40 + 0xA0 bytes shorter, or empty when the file is no longer than header and trailer together |
| Container.StripPlainSpec | explorebits.py:48 | `[0x34:]` drops exactly the 0x34-byte header, and leaves nothing of a shorter file |
| Container.StripClearSpec | explorebits.py:58 | `[0x40:-0xA0]` keeps the bytes between the header and the trailer, and leaves nothing when the file is no longer than both together |
| Container.StripClearFrame | explorebits.py:58 | the header, the kept bytes and the trailer together give back the file |
| Explore.Explorer.constructor | explorebits.py:9-10 | both globals start at 0 |
| Explore.SyncEnd | explorebits.py:69-79 | the cursor after the sync scan lies between 4 and 504, and a found sync word ends just before it |
| Explore.SyncTrace | explorebits.py:69-79 | the sync scan prints one line when it finds the word and two when it does not: the not-found notice, then the cursor |
| Explore.Explorer.ReadBit | explorebits.py:66-79 | the cursor ends just past the first sync word, or at 501 with the not-found report; the cursor is reported in either case; `framecount` is unchanged |
| Explore.Explorer.ParseFrame | explorebits.py:130-207 | the new cursor and the trace are those of `Parse` |
| Explore.Explorer.Type1Packet | explorebits.py:143-189 | the Type-1 branch moves the cursor and prints as `Type1Rest` says |
| Explore.Explorer.ReadPayload | explorebits.py:164-172 | the cursor moves 4·count; the trace is the words read or the skip notice; `data` is the last word read or -1 |
| Explore.Explorer.Type2 | explorebits.py:211-230 | a count is returned exactly when `FindType2` finds a header; the cursor is then just past it, the count is its low 26 bits, and the run is reported; otherwise the cursor has left the buffer |
| Explore.Explorer.Setup | explorebits.py:250-254 | the sync scan followed by the Type-2 scan from where the sync scan ends |
| Explore.Explorer.Scan | explorebits.py:232-236 | the cursor moves frame·101·4 bytes, the new cursor is reported, and `framecount` is unchanged |
| Explore.Explorer.DumpFrame | explorebits.py:238-248 | the old `framecount` is printed with the 101 words at the cursor; the cursor moves 404 bytes and `framecount` grows by 1 |
| Explore.Explorer.DumpUntil | explorebits.py:283-284 | the loop dumps exactly `FramesTo(end - position)` frames, numbered on from `framecount` |
| Explore.Explorer.FrameDump | explorebits.py:280-284 | the frame dump of `main` as written, ending at `position + count`: state and trace are `DumpOf(.., false)` |
| Explore.Explorer.FrameDumpIntended | explorebits.py:280-284 | the same loop ending at `position + 4·count`: state and trace are `DumpOf(.., true)` |
| Explore.Disassemble | explorebits.py:270-284 | any other extension ends with one UnrecognizedExtension event and no count; a .bit file is scanned for sync, and the Type-2 scan and frame dump start where the sync word ends; a .clr file loses its header and trailer and is scanned from offset 0; the count and trace are `DumpOf` with the end as written |

## Left out

- Reading files (explorebits.py:46-47, 56-57, 67-68) is not modelled. The bytes are a parameter of `Explorer` and of `Disassemble`.
- argparse, the `-i` flag and the `pdb.set_trace` fallbacks (explorebits.py:258-268, 276-278, 286-287) are not modelled, and neither is the error raised after an unrecognised extension. An unrecognised extension ends `Disassemble` with an `UnrecognizedExtension` event. The extension arrives as an `Extension` value, not as a file name.
- Printed text is not modelled. Each print is an `Event`, without the hex formatting or the `{:05b}` diagnostic text. Register names and SPI read modes are enumerations, not strings.
- `readbin` is never called by `main`. Only its slice is modelled, as `Container.StripPlain`.
- Explore.Explorer.Type2: the source loops forever once the cursor is past the end of the buffer, because every read there gives 0. The model returns `None` there instead.
- Bitflip.Bitflip: requires the width to be a multiple of 8. Below 8 the source never advances its index. At other widths `to_bytes` can overflow. The length, word-reversal and double-flip lemmas are proved for the default width, 32.
- Explore.Explorer.Scan: takes a natural frame count. Python would also accept a negative one.
- Explore.Explorer.Type1Packet: requires the cursor to be at least 4. It is only entered after a command word has been read.
- Python's unbounded integers are `int`/`nat`. The cursor never becomes negative in any path the model allows.
- rom-locate.py and make-override.py are not part of this model. rom-locate.py is an SoC build script: its behaviour lives in the external toolchain, in hardware description and in randomness. make-override.py prints a fixed list of Tcl lines and has no decision logic.
- The sync scan tries offsets 0 to 500 inclusive, because the code tests `position > 500` after incrementing. The model follows the code.
- `Disassemble` keeps the frame-dump bound of `main` exactly as written, `position + count` (see Findings). The corrected bound is `FrameDumpIntended`.

## Findings

| source | as written | input that shows it | evidently intended | confidence | as-written member | corrected member |
|---|---|---|---|---|---|---|
| explorebits.py:281 | `end = position + count` adds the Type-2 count, a number of 32-bit words, to a byte offset | a Type-2 header with count 202, i.e. two frames of 101 words: the loop stops after one frame, at `start + 404`, because `start + 404 >= start + 202` | `end = position + 4 * count`, so that every frame of the run is dumped | high; not executed | Explore.Explorer.FrameDump, Locate.FrameBoundAsWritten | Explore.Explorer.FrameDumpIntended, Locate.FrameBoundIntended |
