# AMIBIOS 1B module format engine in Dafny

A 1B module is a header and then payloads. The header is:

- a 4-byte prologue: the u16 component count and the u16 header length;
- a table of 8-byte descriptors, each holding a u32 physical address and a u32 length word whose bit 31 is the "payload present" flag;
- optionally, a table of NUL-terminated component names.

After the header, the payloads of the present components follow back to back, in table order.

This project models the format engine of `ami_1B_lib.c` as pure functions over the file's bytes (`seq<byte>`). It covers:

- the prologue scan (`get_header_info`);
- the string-table heuristic (`get_component_string_start`);
- the table decoder (`parse_header`);
- the loader (`init_1B_data`);
- the header patcher (`update_header_data`);
- payload replacement (`replace_component_data`);
- the serializer (`write_1B_data_to_file`);
- the four accessors.

Modules, in dependency order:

- `Bytes` (`bytes.dfy`): bytes, u16 and u32. It has explicit u16/u32 wrap-around, little-endian reads, and a 32-bit store.
- `Results`, `Layout` (`layout.dfy`):
  - the `Option`/`Result` types;
  - the constants of `ami_1B.h`;
  - the `Header`, `Component` and `Module` entities;
  - table field offsets;
  - the invariants `Consistent`, `HeaderAgrees` and `OffsetsAccumulate`.
- `Names` (`names.dfy`): the string-table locator, name reading, and synthesized names.
- `Decoder` (`decoder.dfy`): `parse_header`.
- `Loader` (`loader.dfy`): `get_header_info` and `init_1B_data`, where every chunk read is a slice of the file.
- `Mutator` (`mutator.dfy`): `update_header_data` and `replace_component_data`.
- `Serializer` (`serializer.dfy`): `write_1B_data_to_file`, where the output file is the sequence of bytes written.
- `Accessors` (`accessors.dfy`): count, position and file-offset lookups, and the presence query.
- `RoundTrip` (`roundtrip.dfy`): loading then writing reproduces the file.

Conventions:

- **Chunk reads.** `init_file_chunk_buffer` fails when `start + size` exceeds the file size. Here that check is the slice precondition, and it becomes an error result.
- **Reads past the header buffer.** Several reads of the C can run past the end of the header buffer, which is undefined in C. The model reads NUL bytes there. They are:
  - the `"00"` and `"RUN_"` compares of the locator (`ami_1B_lib.c:505`, `519`), near the end of the buffer;
  - `strlen` on a name (`ami_1B_lib.c:621`) whose cursor is at or past the end of the buffer, or whose bytes hold no NUL before the end;
  - the table-entry reads of `parse_header` (`ami_1B_lib.c:607`, `613`) when the table does not fit in the header;
  - the length-word reads of `update_header_data` (`ami_1B_lib.c:42`) for an entry `i` with `12 + 8*i` past the header length.
- **Stores past the header buffer.** A length-word store by `update_header_data` that would leave the buffer is dropped.
- **Pointers.** Where the source hands out or takes a pointer into the component array, the model uses the component's position.
- **File contents.** The replacement file's contents are a `seq<byte>` argument.

What the code does in cases a reader might expect otherwise:

- **Lookup by file offset** scans every table entry, not only present ones. So offset 0 finds the first absent component.
- **File offset of an absent component** is 0.
- **The file-offset cursor and `calculated_size`** are u32 values and wrap around.
- **The name copy** (`ami_1B_lib.c:621-623`) bounds `snprintf` by `strlen + 1`, not by the 200-byte field. A longer name overruns the field. The model keeps the first 199 characters, which is what a bounded copy into the field gives.
- **Synthesized names** come from `snprintf(name, 18, "_1B_component_%02Xh", i)`. From position 256 on, the three hex digits push the trailing `h` past the bound. The model reproduces that cut.
- **A failed `"RUN_"` scan** (`ami_1B_lib.c:528-536`): when the table-end test passes but the scan finds nothing, `get_component_string_start` returns without a value. The model reports "no string table", and `parse_header` then takes its absent branch with pad 0.

## Model

| member | source | states |
|---|---|---|
| Bytes.WriteU32 | ami_1B_lib.c:51 | the 32-bit store changes only the four bytes at the offset, which then read back as the stored value; a store that does not fit leaves the buffer unchanged |
| Names.FindSignature | ami_1B_lib.c:515-524 | the scan result is the first offset in the range where `"RUN_"` matches; nothing found means no offset in the range matches |
| Names.LocateStrings | ami_1B_lib.c:478-537 | no table when count or header length is 0 or the u16 table end is at or past the header length; otherwise the pad is 5 exactly when `"00"` is at table end + 2 (else 4), and a table starting at `o` means `o` is the first `"RUN_"` in [table end + 4, header length); no table with the test passed means no match in that range |
| Names.CString | ami_1B_lib.c:619-621 | the name read at the cursor is the run of non-NUL bytes there, ended by a NUL or the end of the buffer |
| Names.ReadName | ami_1B_lib.c:619-623 | the stored name is the `strlen` run at the cursor when it is shorter than 200 bytes, and otherwise its first 199 characters; it is always a prefix of that run and shorter than the 200-byte field |
| Names.NameCursorAdvances | ami_1B_lib.c:618-628 | the cursor of name k+1 is the cursor of name k plus that name's `strlen` plus the pad, in u16 |
| Names.SyntheticNameShape | ami_1B_lib.c:629-633 | without a string table, position i < 256 is named `_1B_component_` + two upper-case hex digits + `h`; positions 256..399 get three digits and lose the `h`; every such name has 17 characters |
| Names.SyntheticNamesDistinct | ami_1B_lib.c:629-633 | synthesized names of different positions within the table capacity differ |
| Decoder.DecodeFrom | ami_1B_lib.c:606-664 | the decoding loop yields one component per remaining entry, none with a payload buffer yet |
| Decoder.ParseHeader | ami_1B_lib.c:556-669 | fails exactly when the header length or count is 0 (invalid) or the count exceeds 400 (too many); on success it records count, length and the header bytes, one component per entry without payload, and the string-table flag and pad of the locator (pad 0 without a table) |
| Decoder.DecodedFields | ami_1B_lib.c:606-646 | every decoded entry has the verbatim address word, presence exactly bit 31 of the length word, and that word with bit 31 cleared as length |
| Decoder.DecodedOffsets | ami_1B_lib.c:648-659 | a present component's offset is the header length plus the lengths of the present components before it, in u32; an absent one's offset is 0 |
| Decoder.DecodeFromCursor | ami_1B_lib.c:650-666 | the final file cursor is the start plus the lengths of all present components, in u32 |
| Decoder.ParsedTable | ami_1B_lib.c:601-666 | a successful parse decodes every entry's fields and name, lays out offsets cumulatively from the header length, and sets `calculated_size` to header length plus all present lengths, in u32 |
| Decoder.LocateStringsWithinCapacity | ami_1B_lib.c:494-531 | for counts up to 400 the locator's u16 arithmetic does not wrap: no table when 4 + 8*count reaches the header length; otherwise the pad is chosen by `"00"` at 4 + 8*count + 2, and the table starts at the first `"RUN_"` from 4 + 8*count + 4, or is absent when there is none |
| Decoder.DecodedLengthEncodes | ami_1B_lib.c:638-646 | re-encoding a decoded entry's length and presence gives back its length word, and a decoded length is below 2^31 |
| Decoder.FirstPresentOffset | ami_1B_lib.c:604 | the first present component starts at the header length |
| Decoder.NextPresentOffset | ami_1B_lib.c:648-650 | each later present component starts at the previous present one's offset plus its length, in u32 |
| Decoder.ThreeComponentExample | ami_1B_lib.c:648-666 | presences {yes, no, yes} with lengths {0x10, 0x20, 0x30} give offsets {hl, 0, hl+0x10} and present length 0x40 |
| Loader.GetHeaderInfo | ami_1B_lib.c:686-727 | fails when the file is shorter than the 4-byte prologue or either u16 field is 0, and only then; otherwise returns the little-endian u16 fields at offsets 0 (count) and 2 (header length) |
| Loader.HeaderInfoRoundTrip | ami_1B_lib.c:706-707 | a prologue encoded little-endian is read back as the same count and header length |
| Loader.LoadPayloads | ami_1B_lib.c:796-820 | succeeds exactly when every present payload lies inside the file; each component then gets its file slice; on failure it names the first present component outside the file |
| Loader.LoadFailures | ami_1B_lib.c:742-788 | the load fails with each early error exactly under its condition, checked in source order: file shorter than 4 bytes, zero count or length, header longer than the file, count above 400 |
| Loader.Load | ami_1B_lib.c:742-823 | a loaded module records the file size, a header length between 1 and the file size, the file's first header-length bytes, and one component per counted entry; a payload read fails only after the prologue, header chunk and parse succeeded, at a position below the count |
| Loader.LoadPayloadFailure | ami_1B_lib.c:784-820 | once the header parses, the load succeeds exactly when every present payload of the parsed table lies inside the file; otherwise it fails with the position of the first present payload outside the file |
| Loader.NoWrapUnder4G | ami_1B_lib.c:796-813 | in a loaded file smaller than 4 GiB, header length plus all present lengths stays below 2^32, so the u32 file cursor never wraps |
| Loader.LoadedShape | ami_1B_lib.c:774-792 | a loaded module is consistent: header bytes are the first header-length bytes of the file, count between 1 and 400, size the file size, payload sizes matching lengths |
| Loader.LoadedComponents | ami_1B_lib.c:796-813 | in a loaded module every entry is decoded from the header bytes, a component is present exactly when it holds a payload, and that payload is the file slice at its offset |
| Loader.LoadedOffsets | ami_1B_lib.c:604-666 | a loaded module's offsets accumulate from the header length, and its calculated size is header length plus all present lengths, in u32 |
| Loader.LoadedHeaderAgrees | ami_1B_lib.c:638-646 | when the table lies inside the header, every loaded length word encodes its component |
| Mutator.UpdateHeaderData | ami_1B_lib.c:19-58 | only the header bytes change, and their size stays the same |
| Mutator.PatchedWordValue | ami_1B_lib.c:44-51 | an absent entry's word is kept; a present one gets length with bit 31 set, except in the one case where the length already has bit 31 and equals the stored word with the bit forced on; patching twice equals patching once |
| Mutator.PatchedWordStable | ami_1B_lib.c:47-51 | a word that already encodes its component is not rewritten |
| Mutator.UpdateFromFrame | ami_1B_lib.c:40-55 | the loop stores to no byte outside the length words of present entries that fit in the buffer |
| Mutator.UpdateFromWord | ami_1B_lib.c:40-55 | after the loop, every length word inside the buffer holds its patched value |
| Mutator.UpdateFixes | ami_1B_lib.c:40-55 | a buffer whose words are all already patched is left unchanged |
| Mutator.UpdateHeaderFrame | ami_1B_lib.c:40-55 | prologue, address words, absent entries' words and the string region are unchanged |
| Mutator.UpdateHeaderWord | ami_1B_lib.c:47-51 | afterwards a present entry's word is its length with bit 31 set (for lengths below 2^31), and an absent entry's word is unchanged |
| Mutator.UpdateHeaderIdempotent | ami_1B_lib.c:19-58 | applying `update_header_data` twice gives the same module as applying it once |
| Mutator.UpdateHeaderKeepsAgreement | ami_1B_lib.c:47-52 | a module whose header already agrees with its components is returned unchanged |
| Mutator.UpdateHeaderEstablishesAgreement | ami_1B_lib.c:40-55 | with the table inside the header, absent entries already agreeing and present lengths below 2^31, the header agrees with every component afterwards |
| Mutator.ReplaceComponentData | ami_1B_lib.c:409-470 | fails exactly when the target is outside the table or not present or has no buffer; on success only the target changes, to the new bytes and their u32 length, it stays present, a size change is no error, and size and `calculated_size` are kept |
| Mutator.ReplaceWritesOneWord | ami_1B_lib.c:465-469 | on an agreeing header, replacement changes exactly the target's length word, to the new length with bit 31 set |
| Mutator.ReplacePreservesAgreement | ami_1B_lib.c:465-469 | an agreeing header still agrees after replacement |
| Mutator.ReplacePreservesConsistency | ami_1B_lib.c:444-466 | the new payload buffer holds as many bytes as the recorded length |
| Serializer.WriteComponents | ami_1B_lib.c:145-164 | the component loop succeeds exactly when every present component holds a non-empty buffer, writes as many bytes as the present lengths sum to, and otherwise names the first component it cannot write |
| Serializer.Serialize | ami_1B_lib.c:104-167 | fails on zero calculated size or file size, then on an empty header, then on an unwritable component, and only then; the output is header length plus present lengths long and starts with the header bytes; a failed component write reports the first component that cannot be written |
| Serializer.SerializeFailureWritten | ami_1B_lib.c:124-158 | after a failed component write, the truncated destination holds the header bytes followed by the present payloads before the failing component |
| Serializer.WriteComponentsIsPayloads | ami_1B_lib.c:146-162 | the component loop writes exactly the present payloads in table order |
| Serializer.SerializeIsHeaderThenPayloads | ami_1B_lib.c:135-164 | the written file is the header bytes followed by the present payloads in table order, absent components contributing nothing |
| Serializer.WriteComponentsPlacement | ami_1B_lib.c:146-162 | each present payload is written right after the present payloads before it |
| Serializer.SerializedPlacement | ami_1B_lib.c:135-164 | each present payload is in the output at header length plus the present lengths before it |
| Serializer.SerializedAtFileOffsets | ami_1B_lib.c:146-162 | with accumulated offsets that did not wrap, each present payload is written at its own file offset |
| Serializer.WriteComponentsContiguous | ami_1B_lib.c:146-164 | payloads that are consecutive slices of a file are written back as that stretch of the file |
| Accessors.ComponentCount | ami_1B_lib.c:181-190 | the count is the number of table entries, absent ones included |
| Accessors.ComponentAt | ami_1B_lib.c:219-229 | a component is returned exactly for positions inside the table, and it is the one at that position |
| Accessors.IsComponentDataPresent | ami_1B_lib.c:232-241 | presence is reported exactly for an actual component whose presence flag is set; no component reads as absent |
| Accessors.FindFileOffset | ami_1B_lib.c:206-215 | the lookup loop returns the first entry whose file offset matches, or none when no entry matches |
| Accessors.ComponentAtFileOffset | ami_1B_lib.c:193-216 | the lookup by file offset returns the first position whose offset matches, present or not, or none if no position matches |
| Accessors.LoadedCount | ami_1B_lib.c:181-190 | a loaded module's count is the prologue count and the table size |
| Accessors.LoadedPresence | ami_1B_lib.c:638-640 | in a loaded module, a position is reported present exactly when it is in the table and bit 31 of its length word is set |
| Accessors.FindLoadedComponent | ami_1B_lib.c:206-215 | in a loaded module without wrap-around, looking up a present component's offset finds that component, provided no earlier present component is empty |
| RoundTrip.LoadedSlices | ami_1B_lib.c:796-813 | when the u32 file cursor did not wrap, a loaded module's payloads are consecutive slices of the file right after the header |
| RoundTrip.SerializeSliced | ami_1B_lib.c:135-164 | writing a module whose header and payloads are consecutive slices of a file gives back the start of that file |
| RoundTrip.LoadSerializeRoundTrip | ami_1B_lib.c:104-167 | loading a file and writing it back gives the first `calculated_size` bytes of the file, which equals header length plus present lengths, when the cursor did not wrap and no present component is empty |
| RoundTrip.SmallFileRoundTrip | ami_1B_lib.c:104-167 | for any loaded file under 4 GiB with no empty present component, writing the module back gives the first `calculated_size` bytes of the file |

## Left out

- File I/O. The model leaves out `stat`, `fopen`, `fread`/`fwrite` and their retry loops, and so the I/O failures of `init_file_chunk_buffer` and `write_buffer_to_file`. The file is a byte sequence, and writing it produces a byte sequence.
- `write_component_data_to_file`, `list_components` and `get_1B_filename`: these are file output, printing, and a field read of the file name.
- `cleanup_1B_data`, `cleanup_file_chunk_buffer`, `malloc`/`free`: an immutable model owns no memory.
  - A failed allocation is not modelled.
  - `malloc(0)` for an empty present payload counts as success with an empty buffer.
- NULL-pointer argument checks. Where a pointer stands for a component, NULL corresponds to a position outside the table.
- The `printf` diagnostics and the non-fatal size-mismatch warning of `replace_component_data`.
- The `DEBUG` build option: it only prints.
- The CLI front ends `ami_1B_combiner.c` and `ami_1B_splitter.c`: argument parsing and help text.
- Accessors.ComponentAt: the source indexes the array without a bounds check. Past the table it returns a pointer to an unused or out-of-array slot. The model returns no component.
- RoundTrip.LoadSerializeRoundTrip: proved only for files whose u32 file cursor does not wrap and whose present components are non-empty. An empty payload makes `write_buffer_to_file` fail, and a wrapped cursor breaks the offset layout. The cursor can wrap only for files of 4 GiB or more (`Loader.NoWrapUnder4G`), and `RoundTrip.SmallFileRoundTrip` states the round trip for every smaller file.
- RoundTrip.LoadedSlices: proved only when the u32 file cursor does not wrap. With a wrapped cursor, a present payload is read at the wrapped offset, so the payloads are not consecutive slices after the header. The cursor can wrap only for files of 4 GiB or more (`Loader.NoWrapUnder4G`).
- Serializer.Serialize: does not model the destination's earlier contents. `ModuleEmpty` is returned before the file is opened, so the destination is untouched. `HeaderWriteFailed` leaves the file truncated to empty. `ComponentWriteFailed` carries the bytes left in the file.
- Accessors.FindLoadedComponent: proved under the same no-wrap hypothesis, which every file under 4 GiB meets. It also needs non-empty earlier present components, because an empty one shares its offset with the next present one.
- Mutator.UpdateHeaderWord: states the "length with bit 31 set" form only for lengths below 2^31. Above that, `Mutator.PatchedWordValue` gives the exact stored word. Such a length arises only from a replacement file of 2 GiB or more.
- Mutator.UpdateHeaderEstablishesAgreement: requires absent entries to agree already, because `update_header_data` never rewrites an absent entry's word.
- Name truncation: names of 200 bytes or more are kept to 199 characters instead of overrunning the name field.
