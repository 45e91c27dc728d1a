# Script relocation engine of the LordMonarch localisation utility, in Dafny

The utility translates a Mega Drive game. It decodes the game's script bytecode out of a 2 MiB ROM image. It then rebuilds the pointer graph around that bytecode, re-emits the scripts with the translated text, moves every script group to a new place in free ROM space, and patches every pointer to the new addresses. This project models that engine and proves properties of the model:

- **Bytes** (`bytes.dfy`): big- and little-endian packing (`bytesToNum`, `numToBytes`) and the ROM constants.
- **Pointers** (`pointers.dfy`): the pointer readers and the table resolver.
  - The readers are `refDirectPointer`, `refRelPointer` and `refRelCurPointer`.
  - The resolver covers `dereferenceTable`, `getScriptAddr` with its three special handlers, and `addRefTable`.
  - The single encoder is `calculatePtr`, covering the kinds `d`, `s`, `r`, `n` and `f`.
- **Text and Wrap** (`text.dfy`): `decodeString` and `encodeString`, with their `[xx]` escapes, and `prepareString`, the pixel-width line wrapper.
- **Opcodes** (`opcodes.dfy`):
  - `opcodeDec`, where the opcode table and the character tables are parameters;
  - the byte assembly of `buildTranslatedScripts`.
- **Walk** (`walk.dfy`): the exporter's walk over the script bytecode.
  - `processScript` and its handlers for jumps, for link tables of calls to 0x7184, for texts and for instruction rows.
  - `assignGroups_populateHash`, as methods of an `Exporter` class whose fields the walk updates.
- **Scripts** (`scripts.dfy`): `Array#to_ranges`, the ascending order the exporter walks addresses in, and the group-number function.
- **Allocator** (`allocator.dfy`): `scriptMalloc`, as a `FreeSpace` class whose free list the method sorts and rewrites. It is proved against `Allocate`, a function of the old free list.
- **Importer** (`importer.dfy`): `mergeScripts` and `merge_ConsiderStaticPointers`, `merge_ConsiderInlineTables` and the recursive `merge_AllocateAndMerge`. These are methods of a `Merger` class that holds the groups, the new instruction addresses, the recorded inline LEAs and the patched image.
- **Fixups** (`fixups.dfy`): `buildMergeExtraBlocks` and the four pointer back-patch passes (`fixStaticPointers`, `fixSubPointers`, `fixLeaPointers`, `fixExtraBlocks`).
  - Each pass is a loop proved equal to applying a list of byte writes.
  - Lemmas show what every rewritten pointer reads back as.
- **Lz** (`lz.dfy`): `ResEncoder#getByte`, `#getBit` and `#decode`, the two LZ grammars of the graphics resources, as a `ResDecoder` class with the byte cursor and the bit buffer as fields.
- **Checksum** (`checksum.dfy`): `calculateChecksum`, which works in place on an image `array`.

The database tables of the utility become maps and sequences of records. Every `raise` the model keeps, and every place where the Ruby code would crash on a `nil`, becomes a value of `Wrappers.Fault` returned as `Err`.

Where the documented behaviour of the tool and its code disagree, the model follows the code:

- `calculatePtr` accepts a relative distance of magnitude up to 0x8000, not 0x7FFF.
- A one-byte text code missing from the export table is a crash (string concatenation with `nil`). It is not rendered as an escape. Only an unknown two-byte code is rendered as `[XXXX]`.
- The header checksum lies outside the relocation engine proper. It is modelled anyway, because it is the last loop that changes the image.

## Model

| member | source | states |
|---|---|---|
| Bytes.ToBE | Ruby/util.rb:40-51 | `numToBytes(n, c, false)` yields exactly `c` values, each in 0..255 |
| Bytes.ToLE | Ruby/util.rb:40-51 | `numToBytes(n, c, true)` yields exactly `c` values, each in 0..255 |
| Bytes.NumToBytes | Ruby/util.rb:40-51 | `numToBytes` always yields exactly `c` byte values, in either byte order |
| Bytes.Patch | Ruby/main.rb:1171-1174 | writing bytes at an address puts exactly those bytes there and leaves every other byte of the image alone |
| Bytes.FromToBE | Ruby/util.rb:27-51 | unpacking the big-endian packing of `n` gives `n` modulo 256^c, so a negative number comes back in two's complement |
| Bytes.FromToLE | Ruby/util.rb:27-51 | unpacking the little-endian packing of `n` gives `n` modulo 256^c |
| Bytes.BytesToNumOfNumToBytes | Ruby/util.rb:27-51 | `bytesToNum(numToBytes(n, c, le), le) == n` for every `0 <= n < 256^c` and either byte order |
| Bytes.FromBERange | Ruby/util.rb:27-38 | a sequence of `c` bytes denotes a value in `[0, 256^c)` |
| Bytes.ToFromBE | Ruby/util.rb:27-51 | the converse round trip: a byte sequence re-packed at its own length is itself |
| Pointers.DereferenceTable | Ruby/main.rb:248-262 | an `s` table is at its `tableptr` address; a pointer type other than `d`, `r` or `s` is the "Wrong table pointer type" fault |
| Pointers.OrMsb | Ruby/util.rb:113 | Ruby's `d \| 0x8000` keeps the sign of `d` and sets the 0x8000 bit of a small non-negative distance |
| Pointers.CalculatePtr | Ruby/util.rb:105-117 | `d` and `s` give `(dst, 4)`; `r` and `f` succeed exactly when the distance is within ±0x8000; `n` succeeds exactly when the distance is not negative; relative kinds are 2 bytes wide; any other kind fails |
| Pointers.RelRoundTrip | Ruby/util.rb:105-111 | an `r` pointer written with `calculatePtr` and `numToBytes` and read back with `refRelPointer` gives the destination for every distance in -0x8000..0x7FFF |
| Pointers.SignedWord | Ruby/main.rb:209-222 | every signed 16-bit distance survives `numToBytes` when the two bytes are read back as a signed word |
| Pointers.ReadSigned | Ruby/main.rb:209-222 | without the flag, `refRelPointer` reads the two bytes as a signed distance from the base |
| Pointers.RelAcceptsUnreadableDistance | Ruby/util.rb:108-111 | `calculatePtr` accepts the distance 0x8000 for `r`, which reads back 0x10000 lower |
| Pointers.RelMsbRoundTrip | Ruby/util.rb:112-115 | an `n` pointer with a distance in 0..0x7FFF gives back both the destination and the MSB flag |
| Pointers.RelCurRoundTrip | Ruby/main.rb:224-226 | an `f` pointer with a distance in 0..0x8000 reads back as its destination |
| Pointers.RelCurNegativeReadsHigh | Ruby/main.rb:224-226 | a negative `f` distance, which `calculatePtr` accepts, reads back 0x10000 too high because `refRelCurPointer` is unsigned |
| Pointers.DirectRoundTrip | Ruby/main.rb:205-207 | a `d` pointer to any 32-bit address reads back with `refDirectPointer` |
| Pointers.BattleScriptTables | Ruby/main.rb:265-287 | a count word of 0xFFFF spawns no table; any other count `n` spawns `n + 1` one-entry `2,r` tables at 10, 22, 34, ... bytes after the block |
| Pointers.GetScriptAddr | Ruby/main.rb:290-332 | the entry's own address is base + index × stride; an `s` entry points to itself; only an `n` entry carries the flag; special1 skips entries 2 and 3 of every 4, special2 and special3 skip every entry, and only a skipped entry spawns a table; an unknown kind fails |
| Pointers.EntryReads | Ruby/main.rb:290-311 | the destination of an entry is what `refDirectPointer`, `refRelPointer` (with the MSB read for `n`, dropped at special1's entry 2) or `refRelCurPointer` reads at the entry, and outside special3 the call fails exactly when that read fails |
| Pointers.SpawnedTables | Ruby/main.rb:313-332 | special1 spawns a `2,f` table at the destination of entry 3 of every 4; special2 spawns a `2,r` table with the entry's own extra structure; special3 spawns the battle-script tables at the destination; no other entry spawns a table |
| Pointers.PlainEntry | Ruby/main.rb:290-311 | without a special handler an entry is never skipped, spawns nothing, and its result is exactly the reader's result at base + index × stride |
| Pointers.DirectEntry | Ruby/main.rb:290-311 | a `d` entry rewritten with the 4-byte `calculatePtr` encoding of any 32-bit destination reads that destination back |
| Pointers.RelEntry | Ruby/main.rb:290-311 | an `r` entry rewritten with the 2-byte offset of a destination within ±0x8000 of the table reads that destination back |
| Pointers.RelMsbEntry | Ruby/main.rb:290-311 | an `n` entry rewritten with the encoding of a destination up to 0x7FFF past the table reads that destination and the MSB flag back |
| Pointers.RelCurEntry | Ruby/main.rb:290-311 | an `f` entry rewritten with the offset of a destination up to 0x8000 past the entry reads that destination back |
| Pointers.AddRefTable | Ruby/main.rb:229-244 | a table is queued only for an address not seen before, and the address is then known |
| Pointers.EntryRoundTrip | Ruby/main.rb:290-311 | for a `d`, `r`, `n` or `f` entry and any destination its kind can encode, `calculatePtr` succeeds with the entry's width, and after the entry is rewritten `getScriptAddr` reads the new destination from the same entry (with the MSB flag for `n`) and spawns nothing |
| Text.DecodeToken | Ruby/util.rb:77-99 | a token consumes one byte, or two after a byte above 0xFC; it fails exactly on a lead byte with no successor, or on a one-byte code other than 1, 2 and 3 that the export table lacks |
| Text.DecodeString | Ruby/util.rb:73-103 | the `tmpOffset` loop computes `DecodeFrom`, the text of each token in order |
| Text.ExpandMarks | Ruby/util.rb:183 | text without the stand-in characters is left as it is |
| Text.EncodeString | Ruby/util.rb:181-202 | `nil` encodes to the 0x00 marker; otherwise the stand-ins are expanded and each `[xy]` escape becomes the byte `xy`, each known character its code, and each unknown character is skipped and reported |
| Text.DecodeEncodeRoundTrip | Ruby/util.rb:73-202 | decoding plain one-byte codes and `[03]` bytes and then encoding the text gives back the same bytes, with nothing skipped |
| Wrap.LStrip | Ruby/util.rb:221 | the left strip is a suffix of its input that starts with a non-blank |
| Wrap.RStrip | Ruby/util.rb:233 | the right strip is a prefix of its input that ends with a non-blank, and everything it cut is blank |
| Wrap.NormalizeNewlines | Ruby/util.rb:218 | no carriage return survives the `\r\n?` substitution |
| Wrap.Find | Ruby/util.rb:219 | the first occurrence of the separator at or after `i`, or the end |
| Wrap.DropTrailingEmpty | Ruby/util.rb:219 | `split` drops exactly the trailing empty fields |
| Wrap.JoinFields | Ruby/util.rb:219 | joining the fields of a split with the separator gives the string back |
| Wrap.WordEnd | Ruby/util.rb:226 | a word runs to the first blank |
| Wrap.SplitWords | Ruby/util.rb:226 | `split(" ")` yields non-empty words without blanks |
| Wrap.LetterWidth | Ruby/util.rb:229 | a character has a width exactly when its index into the width table is in range, counting negative indexes from the end |
| Wrap.Width | Ruby/util.rb:229-230 | the width of a string is defined exactly when every character has a width |
| Wrap.LetterWidthDefined | Ruby/util.rb:229 | with a 128-entry table, exactly the characters below 0xA0 have a width |
| Wrap.SecondLastToTwo | Ruby/util.rb:237 | `s[-2] = "2"` changes only the second-last character |
| Wrap.MarkBoxEnd | Ruby/util.rb:250 | marking the end of a box fails exactly when the result has fewer than two characters |
| Wrap.DropLast4 | Ruby/util.rb:255 | `str[0..-5]` drops the last four characters, or gives the empty string for a shorter one |
| Wrap.Prepare | Ruby/util.rb:204-258 | a result is present exactly when a text was given |
| Wrap.FlushLine | Ruby/util.rb:233-239 | ends a line as `Flush` does: strip the trailing blanks, append `[01]`, and turn it into `[02]` on the fourth line of a script box |
| Wrap.AddWord | Ruby/util.rb:229-241 | one turn of the word loop computes `WordStep` |
| Wrap.WrapLineLoop | Ruby/util.rb:223-248 | the word loop over one source line computes `WrapLine` |
| Wrap.WrapBoxLoop | Ruby/util.rb:220-251 | the line loop over one box computes `WrapLines`, then marks the box end |
| Wrap.PrepareString | Ruby/util.rb:204-258 | computes `Prepare`; `nil` and texts of at most 4 characters come back unchanged |
| Wrap.WordStepFits | Ruby/util.rb:231-241 | after a word is added, the line being filled is within the pixel limit, or it is a single word wider than the limit |
| Wrap.WrapLineFits | Ruby/util.rb:223-243 | every line emitted for a source line, each one the word loop ends and the last one, was within the limit or a single over-wide word |
| Wrap.EndedLinesFit | Ruby/util.rb:226-238 | every line the word loop ends, and the line still being filled, was within the limit or a single over-wide word |
| Wrap.WrapWordsEmits | Ruby/util.rb:226-238 | outside a script box, the word loop emits exactly the lines it ends, each without trailing blanks and followed by `[01]`, and counts one line for each |
| Wrap.FlushCounts | Ruby/util.rb:243-248 | in a script the line counter stays in 1..3, and a break becomes `[02]` exactly when it ends the third line |
| Wrap.WrapLinesEnd | Ruby/util.rb:223-249 | after at least one source line the result ends with a break marker |
| Wrap.WrapBoxesEnd | Ruby/util.rb:220-251 | every box ends with `[02]`: the result is empty or ends with `[02]`, and it is never empty once a box was wrapped |
| Wrap.PrepareEnding | Ruby/util.rb:250-256 | the last box's `[02]` is kept only for a script text that ends with `\n_\n`; otherwise exactly those four characters are cut |
| Wrap.ThreeShortWords | Ruby/util.rb:226-243 | with 10-pixel characters and a 35-pixel limit, `"aa bb cc"` wraps into one word per line: `aa[01]bb[01]cc` |
| Wrap.PrepareOneBox | Ruby/util.rb:219-256 | a text of one box loses the final page break of its wrapped box |
| Opcodes.TextRunEnd | Ruby/util.rb:158-168 | a text run ends at a byte that is 0 or in 4..0x14; it stops at once exactly when its first byte is such a byte |
| Opcodes.Aligned | Ruby/util.rb:130-139 | the length word sits at the even address `offset + 1` or `offset + 2` |
| Opcodes.OpcodeDec | Ruby/util.rb:119-179 | the decoding method computes `Decode` |
| Opcodes.VariableDec | Ruby/util.rb:129-146 | the inline-code and call branch computes `DecodeVariable` |
| Opcodes.FixedDec | Ruby/util.rb:125-157 | the table-length branch computes `DecodeFixed` |
| Opcodes.TextDec | Ruby/util.rb:158-171 | the text-run loop computes `DecodeText` |
| Opcodes.FixedLayout | Ruby/util.rb:125-157 | a fixed-length instruction advances by exactly its table length, and its parameters are the bytes after the opcode byte |
| Opcodes.VariableLayout | Ruby/util.rb:129-146 | an inline-code or call instruction: a length word `L` at the even address, `L - 2` payload bytes after it, the next instruction at that address + `L`, and a call target that is the first 4 payload bytes |
| Opcodes.TextLayout | Ruby/util.rb:158-171 | a text instruction is the run up to, and not including, a 0 or a 4..0x14 byte, and its text decodes that run |
| Opcodes.DecodeAdvances | Ruby/util.rb:119-179 | decoding never moves backwards; it stays put only on a fixed instruction of table length 0 |
| Opcodes.RunKeepsPairs | Ruby/util.rb:161-167 | a byte above 0xFC always takes its successor into the run, so a two-byte code is never split |
| Opcodes.EmitOp | Ruby/main.rb:845-886 | inline-code and call instructions are emitted as `VariableBytes`; an untranslated fixed instruction keeps its recorded length; the only faults are a wrong length or a failed translation |
| Opcodes.EmitVariable | Ruby/main.rb:867-875 | the opcode byte, a pad byte exactly when the length word would sit at an odd group offset, a length word equal to payload length + 2, then the payload |
| Opcodes.VariableRoundTrip | Ruby/main.rb:867-875 | re-emitting a decoded inline-code or call instruction writes back the length word `L` and the payload it was decoded from |
| Opcodes.FixedRoundTrip | Ruby/main.rb:876-885 | a decoded fixed-length instruction is re-emitted as the very bytes it was decoded from |
| Opcodes.AssembleLength | Ruby/main.rb:845-886 | the group length is the total size of what was emitted |
| Opcodes.AssembleEven | Ruby/main.rb:867-875 | every inline-code or call instruction of a group has its length word at an even offset from the group start |
| Opcodes.HashOfInOrder | Ruby/main.rb:842-885 | with distinct ids, the group's hash holds the instructions in address order, each under its id with its own bytes |
| Opcodes.HashOfEntries | Ruby/main.rb:842-885 | with distinct ids, looking up an instruction's id gives its own bytes |
| Opcodes.StoredEven | Ruby/main.rb:842-888 | the hash stored for an assembled group lists the instructions in address order, with every inline-code or call length word at an even offset from the group start |
| Wrappers.PutNew | Ruby/main.rb:864-885 | storing a key the hash does not hold yet appends it after every other entry |
| Wrappers.PutLookup | Ruby/main.rb:864-885 | after storing, the key holds the stored value |
| Wrappers.PutOther | Ruby/main.rb:864-885 | storing one key leaves every other key as it was |
| Wrappers.PutKeeps | Ruby/main.rb:1138 | an assignment keeps every key the hash held and adds its own |
| Opcodes.BuildGroup | Ruby/main.rb:831-890 | the loop over one group's instructions fails exactly when assembly fails; otherwise it records the total length, the bytes of each instruction under its id in insertion order, and whether the group has calls |
| Walk.LinkPtrs | Ruby/main.rb:546-560 | reading `count` links yields `count` script addresses |
| Walk.ExtraFor7184 | Ruby/main.rb:532-564 | the cursor loop computes `ExtraLinks` |
| Walk.ReadLinks | Ruby/main.rb:546-560 | the link loop computes `LinkPtrs` |
| Walk.LinkPtrsAt | Ruby/main.rb:546-560 | the `k`-th script address is the big-endian long 4 + 8k bytes into the table |
| Walk.ExtraLayout | Ruby/main.rb:532-564 | a link table holds one more link than its first word says, with link `k` at offset 4 + 8k; its recorded bytes are the part of the table inside the ROM |
| Walk.StepsShape | Ruby/main.rb:443-499 | a walk decodes consecutive, fresh, ascending addresses; only its last instruction can be an exit or a jump; it stops at such an instruction, at the end of the ROM, or at an address already decoded |
| Walk.RecordKeys | Ruby/main.rb:465-494 | recording an instruction adds its address to the decoded ones and takes the next id |
| Walk.TurnState | Ruby/main.rb:459-494 | recording one more instruction extends the recorded walk by exactly that step |
| Walk.RecordAllNamed | Ruby/main.rb:465-494 | recording a walk keeps a row under the id of every decoded address |
| Walk.NamedGroups | Ruby/main.rb:661-681 | once every decoded address has a row, group numbering cannot fail |
| Walk.Exporter.constructor | Ruby/main.rb:77-115 | the exporter starts with nothing decoded, queued or grouped |
| Walk.Exporter.RecordJump | Ruby/main.rb:566-583 | the first jump to a target queues a table for it, and every jump is listed under its target |
| Walk.Exporter.RecordExtra | Ruby/main.rb:532-564 | every link is queued, the table is kept, and the table's bytes count as used |
| Walk.Exporter.RecordStep | Ruby/main.rb:465-494 | the handlers of one instruction update the state as `Record` does |
| Walk.Exporter.DecodeStep | Ruby/main.rb:460-492 | decoding plus the menu flag compute `StepAt`; an exit inside a menu is renamed a menu exit |
| Walk.Exporter.Advance | Ruby/main.rb:449-498 | one turn of the walk either fails as the walk does, or records one more instruction of it |
| Walk.Exporter.WalkScript | Ruby/main.rb:449-499 | the loop succeeds exactly when the walk does, stops where the walk stops, and records every step of it |
| Walk.Exporter.ProcessScript | Ruby/main.rb:443-506 | the walk from the script address, recorded, followed by marking as used the bytes from the script address to where it stopped |
| Walk.Exporter.AssignGroups | Ruby/main.rb:661-681 | the group of each decoded address, in ascending address order, from `GroupIds`; nothing else changes |
| Walk.NumberGroups | Ruby/main.rb:661-681 | the numbering loop over the ascending addresses computes `GroupIds`, keyed by address |
| Walk.NumberFrom | Ruby/main.rb:662-680 | the running-number loop computes `GroupIds` over any order of addresses |
| Scripts.SortedSeq | Ruby/main.rb:662 | `sort` of distinct addresses: strictly increasing, holding exactly the set's elements |
| Scripts.SortedSeqFirst | Ruby/main.rb:662 | the least address comes first in the ascending order |
| Scripts.SortAddrs | Ruby/main.rb:662 | taking out the least address again and again yields `SortedSeq` |
| Scripts.ToRanges | Ruby/main.rb:48-66 | the method computes `to_ranges` as written, seeded with the receiver's first element |
| Scripts.RangesLoop | Ruby/main.rb:54-63 | the left/right accumulator loop computes `RangesFrom` |
| Scripts.RangesShape | Ruby/main.rb:54-63 | with a pending run below every remaining address, the ranges are separated and cover exactly the run and the remaining addresses |
| Scripts.ToRangesFixedCovers | Ruby/main.rb:48-66 | seeded with the least element, `to_ranges` yields separated ascending ranges that cover every address of the receiver and no other |
| Scripts.ToRangesFirstLeast | Ruby/main.rb:53 | when the receiver's first element is its least, `to_ranges` as written is the corrected version |
| Scripts.ToRangesLosesLeast | Ruby/main.rb:53 | `[5, 1].to_ranges` yields the reversed range 5..1 and then 5..5, and 1 lies in no range |
| Scripts.GroupStep | Ruby/main.rb:674-679 | the group number moves by 0, 1 or 2 past each instruction |
| Scripts.GroupIdsAt | Ruby/main.rb:661-681 | numbering fails exactly on an instruction without a row; the first gets the start number, each next one the previous number plus 2 at a gap, plus 1 after an adjacent exit or jump, plus 0 otherwise |
| Scripts.GroupIdsMonotone | Ruby/main.rb:661-681 | group numbers never decrease in address order, and the number after the last instruction bounds them all |
| Scripts.ZipMapKeys | Ruby/main.rb:663 | the group map has exactly the decoded addresses as keys |
| Scripts.ZipMapAt | Ruby/main.rb:663 | each address holds the group number computed at its position |
| Allocator.SortByPrioritySorted | Ruby/main.rb:921 | sorting the free list yields blocks in ascending priority |
| Allocator.SortByPriorityPermutes | Ruby/main.rb:921 | sorting keeps exactly the same blocks |
| Allocator.Pad | Ruby/main.rb:933 | the pad is 0 or 1, is 0 unless an even address is asked, and makes the address even when one is |
| Allocator.LeftEdgeFits | Ruby/main.rb:930-942 | a left-edge placement lies in `[minAddr, maxAddr]`, inside the block, right after its start and pad, and is even when asked |
| Allocator.RightEdgeFits | Ruby/main.rb:944-955 | a right-edge placement lies in the window and inside the block, is even when asked, and ends at the block end less the pad |
| Allocator.SpanningBlock | Ruby/main.rb:956-959 | a division candidate reaches from `minAddr` or before to `maxAddr` or after, holds the request, and offered no left edge |
| Allocator.FreeSpace.constructor | Ruby/main.rb:795-802 | the free list starts as given |
| Allocator.FreeSpace.Malloc | Ruby/main.rb:919-983 | the list is sorted in place; a success returns the address `Allocate` chooses and leaves the list `Allocate` computes; a failure returns its fault and leaves the list sorted |
| Allocator.ScanHead | Ruby/main.rb:925-955 | the scan stops with "Memory corruption" at a block whose start is past its end, and serves the request at a block that offers an edge |
| Allocator.ScanNoSpace | Ruby/main.rb:962-980 | the scan fails for lack of space exactly when no block from here on offers an edge and there is no division candidate |
| Allocator.EdgeAllocation | Ruby/main.rb:924-955 | an edge placement comes from the first block in priority order that offers one; it lies in the window and in that block and is even when asked; only that block changes, losing the placement and its pad from one side and leaving the list when emptied; a right edge sets the end to `pasteOff - pad - 1` |
| Allocator.ShrunkKeepsOthers | Ruby/main.rb:937-953 | shrinking or deleting one block leaves every other block in place and in order |
| Allocator.DivideAllocation | Ruby/main.rb:956-976 | a division happens only when no block offers an edge; it uses the first spanning block, places the request at `minAddr` plus the pad, cuts that block to end just below, and appends the rest with priority 99 |
| Allocator.NoSpaceExactly | Ruby/main.rb:962-980 | "No more free script space" is raised exactly when the list is non-empty, every block is well formed, and no block offers an edge or spans the window |
| Allocator.DivideIgnoresMax | Ruby/main.rb:965-975 | a division does not check `maxAddr`: a 20-byte request in `[100, 110]` lands at 100 and ends at 120 |
| Allocator.DivideAtStartCorrupts | Ruby/main.rb:926-976 | a division at a block's own start leaves a block that ends before it starts, and every later request fails with "Memory corruption" |
| Importer.WindowEncodes | Ruby/main.rb:1045-1063 | a destination inside an entry's derived window can be encoded with the kind `fixStaticPointers` uses for that entry |
| Importer.WindowShape | Ruby/main.rb:1045-1063 | the derived window is exactly base−0x8000..base+0x7FFF for `r` and `f`, and base..base+0x7FFF for `n` |
| Importer.LetterShape | Ruby/main.rb:1052-1060 | an entry without `s` is encoded with the one relative letter its window was derived from |
| Importer.GroupSpan | Ruby/main.rb:1012-1018 | the lowest and highest exported address of the group's instructions, or none for a group without instructions |
| Importer.GroupOf | Ruby/main.rb:1091-1095 | the group of an instruction id, present exactly when some row has that id |
| Importer.MaxLo | Ruby/main.rb:1107 | `minAllow.max`: a lower bound that is one of the bounds and at least every other |
| Importer.MinHi | Ruby/main.rb:1108 | `maxAllow.min`: an upper bound that is one of the bounds and at most every other |
| Importer.Merger.constructor | Ruby/main.rb:780-792 | the merger starts with the given groups and image, no new addresses and no recorded LEAs |
| Importer.Merger.ConsiderStaticPointers | Ruby/main.rb:1010-1067 | the loop computes `StaticWindows`: the windows of the pointer rows whose entry lies within the group's span, in row order |
| Importer.Merger.ConsiderInlineTables | Ruby/main.rb:1070-1081 | the window ±0x8000/0x7FFF of every table an inline LEA of the group points to |
| Importer.Merger.Record | Ruby/main.rb:1138 | `@inlineRef[at] = ref`: the key then holds `ref`, no recorded key is dropped, and nothing else changes |
| Importer.Merger.AllocateAndMerge | Ruby/main.rb:1084-1178 | marks the group allocated and places it inside the intersection of its windows, evenly when it has calls, with its bytes copied there and each instruction given a new address once; on success every group holding an inline LEA into it is allocated too; no allocated group changes, no address is reassigned and no recorded LEA address is dropped |
| Importer.Merger.Paste | Ruby/main.rb:1107-1177 | the allocation lies in `[lo, hi]` unless a block was divided; the merged bytes are as long as the group and sit in the image at the returned address |
| Importer.Merger.Visit | Ruby/main.rb:1098 | an allocated group is never re-entered and nothing changes; an unknown group id is a fault; otherwise the group ends up allocated, and the address returned is where its instructions now sit |
| Importer.Merger.AllocateReferrers | Ruby/main.rb:1090-1105 | on success every group reaching this one through an inline LEA is allocated; each referrer this loop places was unallocated, sits at the address it returned, and has the window from 0x6000 below to 0x5FFF above that address among the windows; the windows only grow and no placed address changes |
| Importer.Merger.PlaceOps | Ruby/main.rb:1119-1167 | each instruction gets the address of the bytes before it, and none had one before ("already assigned" otherwise); the result is the base plus the merged length |
| Importer.Merger.RecordSelfRefs | Ruby/main.rb:1129-1139 | records each LEA of the instruction into its own group, in order, dropping no recorded key |
| Importer.Merger.PlaceLeaRefs | Ruby/main.rb:1141-1163 | on success the address of every cross-group LEA of the instruction is a key of `@inlineRef` and every group such an LEA points into is allocated; no placed address changes |
| Importer.Merger.MergeScripts | Ruby/main.rb:991-1007 | on success every group is allocated and every instruction has its new address |
| Importer.MarkAllocated | Ruby/main.rb:1088 | marking a group allocated leaves one group fewer to place, which bounds the recursion |
| Importer.AllocatedInWindow | Ruby/main.rb:1107-1113 | an allocation lands at or after the window's start and is even when asked; it ends within the window unless it sits at the window's start plus the pad, where a division puts it |
| Importer.Loaded | Ruby/main.rb:888 | the importer's group entry carries the rebuilt group's length, its ordered instructions and its calls flag, and is not yet allocated |
| Importer.PlacedWordsEven | Ruby/main.rb:1113-1126 | once a group rebuilt from instructions with distinct ids has landed, every inline-code or call instruction has its length word at an even ROM address |
| Fixups.Step | Ruby/main.rb:1202-1204 | one write puts its bytes at its address and leaves the rest of the image alone; a write past the image fails |
| Fixups.Apply | Ruby/main.rb:1197-1335 | a pass keeps the image size |
| Fixups.ApplyAllOk | Ruby/main.rb:1197-1335 | a pass that succeeds met no fault |
| Fixups.Survives | Ruby/main.rb:1197-1335 | in a pass whose writes do not disturb each other, every write is in the final image |
| Fixups.PatchSame | Ruby/main.rb:1202-1204 | writing bytes that are already there changes nothing |
| Fixups.WriteBytes | Ruby/main.rb:1202-1204 | the byte-copy loop performs one write |
| Fixups.AddrOf | Ruby/main.rb:1305 | a new address exists exactly for an id that was placed |
| Fixups.LeaSite | Ruby/main.rb:1226-1233 | the inline code starts at the even length-word address + 2 |
| Fixups.ExtraSite | Ruby/main.rb:1199-1201 | a call's variables start at the even length-word address + 6 |
| Fixups.FixLinks | Ruby/main.rb:1222-1283 | the loop over the jump, gosub, 4-byte LEA or table LEA links performs their writes in order |
| Fixups.FixInline | Ruby/main.rb:1259-1266 | the loop over the recorded 2-byte LEAs performs their writes in order |
| Fixups.FixLeaPointers | Ruby/main.rb:1222-1267 | the 4-byte LEAs, then the table LEAs, then the recorded 2-byte LEAs |
| Fixups.EncodedReadBack | Ruby/util.rb:105-117 | a destination written with `calculatePtr` reads back with the reader of its kind whenever the distance fits |
| Fixups.FixStaticPointers | Ruby/main.rb:1286-1335 | the loop over the pointer rows performs the writes of `StaticItems` in order |
| Fixups.RowFault | Ruby/main.rb:1305-1314 | a row with no address for its target, or a malformed structure, stops the pass before any of its writes |
| Fixups.IdsAt | Ruby/main.rb:908-910 | the ids of exactly the instructions exported at an address |
| Fixups.ScriptRefs | Ruby/main.rb:908-911 | succeeds exactly when each link names exactly one instruction, and then yields that instruction per link |
| Fixups.ExtraRecorded | Ruby/main.rb:892-916 | every recorded link table sits at an even ROM address and lists at least one instruction |
| Fixups.BuildMergeExtraBlocks | Ruby/main.rb:892-916 | the loop computes `BuildExtra`: the image with each table copied and the record of each table |
| Fixups.FixLinkTable | Ruby/main.rb:1207-1216 | the running `srcOffset` loop writes link `k` at table offset 4 + 8k |
| Fixups.FixBlock | Ruby/main.rb:1199-1216 | the call gets the table's new address, then the table's links are rewritten |
| Fixups.FixExtraBlocks | Ruby/main.rb:1197-1219 | every recorded table in the hash's order |
| Fixups.FixPointers | Ruby/main.rb:1197-1335 | the four passes, one after another, perform the writes of `Fixes` |
| Fixups.PointersResolve | Ruby/main.rb:1197-1335 | when the writes do not disturb each other, every rewritten pointer reads back as the new address of its target: jump and gosub targets, inline LEAs, pointer-table entries and copied link tables |
| Fixups.StaticEntry | Ruby/main.rb:1303-1316 | a row whose writes all succeed has its target's address and a well-formed structure |
| Fixups.LinkEntryReadBack | Ruby/main.rb:1207-1216 | link `k` of a copied table reads back as the new address of the `k`-th instruction it names, whenever that address fits 32 bits |
| Lz.LsbBits | Ruby/main.rb:1428 | a number becomes exactly `k` bits |
| Lz.FromLsbBits | Ruby/main.rb:1428 | `k` bits spell a number below 2^k |
| Lz.LsbBitsRoundTrip | Ruby/main.rb:1428 | spelling the low bits of a number that fits gives the number back |
| Lz.FromLsbBitsRoundTrip | Ruby/main.rb:1428 | splitting a spelled run of bits gives the same run |
| Lz.ByteBits | Ruby/main.rb:1428 | a byte supplies eight flags, least significant bit first, that spell the byte |
| Lz.NextBit | Ruby/main.rb:1425-1433 | a buffered flag is taken first; otherwise the next byte is read, its lowest bit is returned and its other seven bits are buffered |
| Lz.Token83 | Ruby/main.rb:1444-1456 | a set flag is a literal whose value is the next input byte, read after the flag and failing exactly when that byte is past the end; a copy has a 12-bit distance and a length of 3..18 |
| Lz.Expand | Ruby/main.rb:1445-1456 | one token lengthens the output by one byte for a literal or by its count for a copy and keeps what was there; a literal appends exactly its byte |
| Lz.Token84 | Ruby/main.rb:1459-1483 | a set flag is a literal whose value is the next input byte, read after the flag and failing exactly when that byte is past the end; a copy has a 13-bit distance and a length of 1..256 |
| Lz.LongCopy | Ruby/main.rb:1463-1472 | a long copy has a 13-bit distance and a length of 1..256 |
| Lz.ShortCopy | Ruby/main.rb:1473-1478 | a short copy has a one-byte distance and a length of 3..6 |
| Lz.CopyFrom | Ruby/main.rb:1452-1455 | a copy appends exactly `counter + 1` bytes and keeps what was there |
| Lz.CopyRepeats | Ruby/main.rb:1452-1455 | a copy from a distance inside the output repeats it with that period, the overlap included |
| Lz.ZeroDistance | Ruby/main.rb:1452-1455 | a copy from distance 0 reads the slot being filled, a `nil` |
| Lz.Turn | Ruby/main.rb:1445-1456 | one turn lengthens the output and keeps what was there |
| Lz.Loop | Ruby/main.rb:1444-1484 | the loop ends only once the output is longer than the size, and keeps what was there |
| Lz.Header | Ruby/main.rb:1438-1439 | the header is readable exactly when three bytes remain; it holds the tag and the big-endian size |
| Lz.Run | Ruby/main.rb:1435-1489 | `decode` yields `nil` exactly for an unknown tag; otherwise exactly `size` bytes |
| Lz.UnknownTag | Ruby/main.rb:1485-1487 | a tag other than 0x03, 0x83, 0x04 or 0x84 decodes to `nil` |
| Lz.LoopExtends | Ruby/main.rb:1444-1488 | the decoded bytes are a prefix of what the tokens produce, so a larger size only extends them |
| Lz.ResDecoder.constructor | Ruby/main.rb:1414-1417 | the decoder holds the ROM, with the cursor at 0 and an empty bit buffer |
| Lz.ResDecoder.GetByte | Ruby/main.rb:1419-1423 | reads `NextByte` and moves the cursor one byte on, even past the end |
| Lz.ResDecoder.GetBit | Ruby/main.rb:1425-1433 | reads `NextBit` from the cursor and the buffer |
| Lz.ResDecoder.ReadToken83 | Ruby/main.rb:1445-1451 | reads `Token83` from the cursor and the buffer |
| Lz.ResDecoder.ReadToken84 | Ruby/main.rb:1460-1478 | reads `Token84` from the cursor and the buffer |
| Lz.ResDecoder.ReadHeader | Ruby/main.rb:1436-1439 | reads `Header` from the cursor |
| Lz.ResDecoder.Tokens | Ruby/main.rb:1444-1484 | the `while` loop of either grammar computes `Loop` |
| Lz.ResDecoder.Decode | Ruby/main.rb:1435-1489 | `decode` computes `Run` and leaves the cursor where `Run` does |
| Lz.CopyBack | Ruby/main.rb:1453-1455 | the `0.upto(counter)` loop computes `CopyFrom` |
| Checksum.ChecksumOf | Ruby/main.rb:2064-2070 | the checksum is a 16-bit value |
| Checksum.StampedStable | Ruby/main.rb:2064-2077 | the stored checksum lies below the summed words, so stamping does not change the checksum; the stored bytes read back as it; and stamping twice is stamping once |
| Checksum.SumWords | Ruby/main.rb:2066-2069 | the `each_slice(2)` loop adds up the big-endian words from 0x200 to the end of the image |
| Checksum.CalculateChecksum | Ruby/main.rb:2064-2077 | on an image of full size, returns the sum of the big-endian words from 0x200 on, modulo 0x10000, and stores it big-endian at 0x18E; a shorter image is a fault and is left unchanged |

The table above lists the members that carry contracts of their own. Those contracts are stated against the following definitions, each a direct transcription of the cited lines. What is proved about each one is in the rows that name it.

- `Pointers.RefDirectPointer` (Ruby/main.rb:205-207): `refDirectPointer`, the 4-byte big-endian address stored at the entry.
- `Pointers.RefRelPointer` (Ruby/main.rb:209-222): `refRelPointer`, a signed 16-bit distance from the table base, or with the MSB flag an unsigned one whose top bit is reported separately.
- `Pointers.RefRelCurPointer` (Ruby/main.rb:224-226): `refRelCurPointer`, an unsigned 16-bit distance from the entry's own address.
- `Allocator.SortByPriority` (Ruby/main.rb:921): `sort_by!` on the block priority, stable.
- `Allocator.ProbeBlock` (Ruby/main.rb:928-959): one block's left-edge and right-edge attempts, and whether it is a division candidate.
- `Allocator.Divide` (Ruby/main.rb:965-975): the division of the first candidate at `minAddr`, with a new block of priority 99.
- `Allocator.Scan` (Ruby/main.rb:924-981): the walk over the sorted blocks, with "Memory corruption", division and "No more free script space!".
- `Allocator.Allocate` (Ruby/main.rb:919-983): `scriptMalloc`, the sort followed by the scan.
- `Opcodes.Decode` (Ruby/util.rb:119-179): `opcodeDec`.
- `Opcodes.VariableBytes` (Ruby/main.rb:867-875): the bytes of an inline-code or call instruction, with the pad byte and the length word.
- `Opcodes.Assemble` (Ruby/main.rb:845-886): the loop over one group's instructions, each emitted after the bytes before it.
- `Opcodes.HashOf` (Ruby/main.rb:842-885): `scriptHash`, filled one instruction after another.
- `Walk.StepAt` (Ruby/main.rb:460-492): one decoded instruction and the menu flag.
- `Walk.Record` (Ruby/main.rb:465-494): the handlers that run for one decoded instruction.
- `Walk.Steps` (Ruby/main.rb:443-499): the instructions one walk decodes, up to the exit or jump that ends it.
- `Walk.Finish` (Ruby/main.rb:500-504): the used-space marking after the walk.
- `Scripts.RangesFrom` (Ruby/main.rb:54-63): the left/right loop of `to_ranges`.
- `Scripts.ToRangesSpec` (Ruby/main.rb:48-66): `to_ranges` as written.
- `Scripts.ToRangesFixed` (Ruby/main.rb:48-66): `to_ranges` with the first range seeded by the least element.
- `Scripts.GroupIds` (Ruby/main.rb:661-681): the group numbering of `assignGroups_populateHash`.
- `Importer.PointerWindow` (Ruby/main.rb:1045-1063): the window one pointer row imposes.
- `Importer.StaticWindows` (Ruby/main.rb:1010-1067): the windows of the pointer rows into the group's span.
- `Importer.InlineTableWindows` (Ruby/main.rb:1070-1081): the windows of the inline LEAs to pointer tables.
- `Importer.Merged` (Ruby/main.rb:1166): `mergedBytes`, the instructions' bytes back to back.
- `Fixups.LinkItem` (Ruby/main.rb:1222-1283): the write one jump, gosub or LEA link asks for.
- `Fixups.StaticItems` (Ruby/main.rb:1286-1335): the writes of `fixStaticPointers`.
- `Fixups.BuildExtra` (Ruby/main.rb:892-916): `buildMergeExtraBlocks`.
- `Fixups.Fixes` (Ruby/main.rb:1197-1335): the writes of the four fix passes, in order.
- `Lz.NextByte` (Ruby/main.rb:1419-1423): `getByte`.
- `Lz.Expand` (Ruby/main.rb:1445-1456): the output after one token.
- `Text.DecodeFrom` (Ruby/util.rb:73-103): `decodeString`.
- `Text.Encode` (Ruby/util.rb:181-202): the loop of `encodeString`.
- `Wrap.EndedLines` (Ruby/util.rb:226-238): the lines the word loop of `prepareString` ends, in order.
- `Checksum.WordSum` (Ruby/main.rb:2066-2069): the sum of the big-endian words.
- `Checksum.Stamped` (Ruby/main.rb:2064-2077): the image with its checksum written back.

## Left out

- The SQLite database, CSV and TBL loading, and the file reads and writes: the tables they fill are parameters (`ExportTable`, `ImportTable`, the opcode table, the pointer rows, the links, the letter widths), and the image is a value.
- `Util.disasmBytes`, `lzsa2encode` and `patchASM` call external programs and are not modelled. The disassembly text of an inline-code instruction is not kept.
- `script_Inline` matches the disassembler's text, so it is not modelled. The LEA links it would record are inputs of the importer.
- The reclassification of LEA2 links into LEA2SELF in `assignGroups` is a database update. The importer takes the link kind as given.
- The `groupRefLea` bookkeeping, `assignGroups_toDB` and `updateDatabaseLinks` only store what the model already holds.
- `repackData`, `generateVWF`, `mergeStaticStrings`, `eraseEmptyBlocks`, `compactFreeSpace`'s file, and the literal byte patches (`mergeASM_Hacks`, `hacks_TitleLabels`, `fixTutorialTimings`, `applyBinaryPatches`) are not part of this model.
- `debugPrint`, `printScriptMem` and `printAvailableSpace` are logging only.
- The unknown-character warning of `encodeString` is modelled as the list of skipped characters, not as output.
- `getScriptAddr` computes a pointer size it never uses, so the model does not compute it.
- `@resAddr` of the resource encoder is filled by `repackData` and is not modelled.
- Allocator.SortByPriority: Ruby's `sort_by!` is not guaranteed stable. The model uses a stable insertion sort, so the order among blocks of equal priority is the model's choice.
- Fixups.Step: the patched image has the fixed cartridge size. A write beyond it is the fault `WritePastEnd`, where Ruby would grow the array.
- Importer.Merger.AllocateReferrers: the windows pushed are stated for the referrers the loop itself placed, each with its address; that no other window is pushed, and that a referrer allocated by a nested placement earlier in the loop gets no window, are not stated.
- Importer.Merger.PlaceLeaRefs: the LEA addresses are stated to be recorded keys, not which instruction each key holds at the end, since a later placement may store a different instruction at the same address; that a target placed here lands within a signed 16-bit distance of its LEA is not carried out of `Visit`.
- Importer.Merger.Paste: a group whose bytes would run past the end of the patched image is the fault `WritePastEnd`, where Ruby's byte-by-byte assignment would grow the array.
- Fixups.PointersResolve: the read-back lemmas assume that the writes of the passes do not overlap. The Ruby code does not check this.
- Fixups.BuildMergeExtraBlocks: all links of one table are recorded under the call at once, rather than with one hash store per link.
- Lz.CopyFrom: a copy that reads `nil` is the fault `BadBackReference`. Ruby would push `nil` into the output and fail later, or never.
- Lz.NextByte: a literal read past the end of the ROM is the fault `ReadPastEnd`. Ruby would push `nil`.
- Lz.ResDecoder.Decode: on a fault, the cursor is not specified.
- Importer.Merger.AllocateAndMerge, Importer.Merger.MergeScripts: on a fault, the state is only known to have grown (`Grows`). Ruby raises and the run ends, so nothing uses that state.
- Checksum.CalculateChecksum: an image shorter than 2 MiB is reported up front as `ReadPastEnd`. Ruby would fail on the first `nil` it sums.
- Reads past the end of the ROM anywhere else are the fault `ReadPastEnd`. Ruby would get a shorter slice or `nil`.

## Findings

| source | as written | input that shows it | evidently intended | confidence | as-written member | corrected member |
|---|---|---|---|---|---|---|
| Ruby/main.rb:53 | `to_ranges` seeds the first range's start with `self.first`, the receiver's first element, although the loop runs over the sorted array | `[5, 1].to_ranges` gives `5..1` and `5..5`; address 1 is in no range | seed the start with the least element, `array.first` | not executed | Scripts.ToRangesLosesLeast | Scripts.ToRangesFixedCovers |
