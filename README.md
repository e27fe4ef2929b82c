# ppu-lv2-prx-nidreplacer, modelled in Dafny

The tool patches a Unix `ar` archive of big-endian ELF-64 objects, as built
for the PS3 PPU. For every object in the archive whose symbol string table
holds a requested symbol name, it overwrites the 32-bit FNID stored 0x6C
bytes into that object. The requests come from a text file of `HEX:name`
lines.

The model follows `src/main.cpp`:

- `Bytes`: `SwapEndian` and the big-/little-endian reading of fixed-width
  values. This shows that "load natively, then swap" decodes a big-endian
  field.
- `Archive`: `arlib::ParseArchive(char*, size_t)` as a pure decoder, `Decode`.
  It takes the magic `!<arch>\n`, an optional `/` symbol-table member, then an
  optional `//` long-names member, then the regular members. It reproduces
  the source's quirks:
  - the `/` content is skipped rounded down to even, and the `//` content
    rounded up;
  - regular members follow each other with no pad byte;
  - terminators are checked only on the two special members;
  - a header is read only while more than 60 bytes remain.
- `Elf`: the first loop of `arlib::ReplaceFnid`. It checks the ELF magic,
  resolves section names through `e_shstrndx` and finds the first section
  whose name begins with `.strtab`. It also models the `strcmp` scan for a
  requested name.
- `FnidList`: `ParseFnidList` over the bytes of the list file. It comes with
  a writer, `Format`, and its inverse property: parsing what the writer
  wrote gives the list back.
- `Patch`: what `ReplaceFnid` does to the archive file, as a value. It is
  the ordered list of 4-byte writes (`Plan`), and `ApplyAll` applies them to
  the file's bytes.
- `ArLib`: the imperative code.
  - The class `Arlib` holds the globals `s_firstEntry`, `s_secondEntry` and
    `s_archiveData` as fields.
  - `ParseArchive` fills the fields with a cursor loop.
  - `ReplaceFnid` runs the member loop, the request loop and the byte-scan
    loop, and writes into an `array<byte>` that stands for the archive file.
  - Each method is proved equal to the corresponding function of `Archive`,
    `Elf` or `Patch`.
- `Tool`: `main` after its argument check (`Run`, proved equal to
  `Outcome`), and `GetExecutableName`.

Where a read would leave the bytes the model decodes, the model returns an
error value instead and the run writes nothing more:

- an archive header or content that runs past the file's bytes gives
  `HeaderOverrun` or `ContentOverrun`;
- an ELF header, section header, section name or string table outside the
  member's content gives `Elf.Fault`.

In most of these cases the source reads past its data, which is undefined
behaviour. In some it does not, and there the model stops where the source
goes on (each is a line under "## Left out"):

- `LoadFile` (src/main.cpp:39) keeps two zero bytes after the file's data,
  so an archive read that reaches only those two bytes is defined;
- each member's content is a `std::string` whose NUL sits at its size, so an
  ELF field whose last byte is that NUL is defined;
- a `.strtab` whose declared range runs past the member is defined as long as
  the name scan stops before the content ends.

A write of the FNID past the end of the file is not a read: the source's
`fseek` and `fwrite` grow the file there. The model stops the run with
`WriteOutsideFile` instead, so in the model the file never changes length
(see "## Left out").

The `exit(1)` on a bad special-member terminator becomes `IllegalHeader`.

## Model

| member | source | states |
|---|---|---|
| Bytes.SwapEndian | src/main.cpp:10-24 | The byte-reversing loop returns the value whose memory bytes are the input's in reverse order, and the result fits the same width. |
| Bytes.SwappedInvolutive | src/main.cpp:10-24 | Swapping twice gives back the original value: `SwapEndian` is its own inverse. |
| Bytes.SwapOfNativeLoad | src/main.cpp:206-218 | Swapping a value a little-endian host loaded from some bytes gives the big-endian value of those bytes, so `SwapEndian(hdr->field)` decodes the ELF field. |
| Bytes.SwappedBytes | src/main.cpp:235-236 | The memory bytes of `SwapEndian(v)` are the big-endian bytes of `v`, which is what the 4-byte `WriteFile` of `nid` puts in the file. |
| Archive.DecimalValue | src/main.cpp:87-90 | A run of decimal digits has a value below 10 to the power of its length. |
| Archive.ParseDecimal | src/main.cpp:87-90 | `strtoul(…, 10)` over the size field: the value has no more decimal digits than the field has bytes, and a field with no digit after its leading blanks reads as 0, the "no conversion" answer. Its value for a real size field is `Archive.PaddedFieldValue`. |
| Archive.SizeField | src/main.cpp:84-90 | `GetDataSize` reads only the 10-byte size field of the header, so in the model, which keeps the exact value (a 64-bit `unsigned long`), a declared size is below 10^10. |
| Archive.PaddedFieldValue | src/main.cpp:84-90 | A size field of decimal digits padded with blanks reads as the value of its digits, as `GetDataSize` returns it. |
| Archive.EvenDown | src/main.cpp:134 | `size & ~1`: the largest even number not above the size. |
| Archive.EvenUp | src/main.cpp:156 | `(size + 1) & ~1`: the smallest even number not below the size. |
| Archive.ReadMember | src/main.cpp:162-170 | The record's `fileOffset` is the header position plus 60, and the only failure is a content that runs past the buffer. |
| Archive.ReadMemberPlaced | src/main.cpp:162-170 | The copy fails exactly when header + 60 + declared size exceeds the buffer. Otherwise the record holds exactly the declared number of bytes right after the header, with `objSize` equal to the size field. |
| Archive.SpecialAt | src/main.cpp:117-136 | No record, and no error, exactly when the 16-byte name does not match. A record is placed right after its header and has a `` `\n `` terminator. A bad terminator on a matching header is `IllegalHeader`, the `exit(1)` path. |
| Archive.Scan | src/main.cpp:160-174 | The reference regular scan: its only failure is `ContentOverrun`. Its records are pinned by `Archive.ScanLayout`, and `ArLib.ScanMembers` is proved equal to it. |
| Archive.ScanLayout | src/main.cpp:160-174 | Every record of the regular scan is placed as its size field says, and was read from a header with more than 60 bytes after it (`fileOffset < |buf|`, the strict `<` of the loop test). The first record's header is where the scan starts. Each next header is at exactly the previous `fileOffset + objSize`, with no pad. The scan ends only when at most 60 bytes remain. |
| Archive.Decode | src/main.cpp:106-110 | `NotAnArchive`, the `return false`, exactly when the buffer is shorter than 8 bytes or lacks the magic. A symbol table is recorded exactly when the `/` name is present. |
| Archive.DecodedLayout | src/main.cpp:113-174 | In a decoded archive, the `/` record follows the magic and `//` is looked for at the `/` content rounded down to even. The first regular header follows the `//` content rounded up to even. Every record is placed as its header says, holds exactly its declared size, and was read from a header with more than 60 bytes after it. The regular records are contiguous. |
| Archive.SymbolTableTerminatorChecked | src/main.cpp:117-123 | A `/` header whose bytes 58..60 are not `` `\n `` makes the decoder fail with `IllegalHeader(8)`. |
| Archive.LongNamesTerminatorChecked | src/main.cpp:138-145 | A `//` header with a bad terminator makes the decoder fail with `IllegalHeader` at that header, whether or not a `/` member came first. |
| Archive.RegularTerminatorsIgnored | src/main.cpp:160-174 | A bad-terminator failure is only ever reported at the `/` or the `//` position, never at a regular member. |
| Elf.FieldIsBigEndian | src/main.cpp:206-218 | The field reader returns the big-endian value of the field's bytes. |
| Elf.ReadField | src/main.cpp:206 | A native load followed by `SwapEndian` yields the big-endian field value. |
| Elf.FindStrtab | src/main.cpp:211-221 | The reference section search never answers "not ELF" (the magic is checked before it), and a table it finds lies inside the member. Which section it picks is `Elf.FindStrtabFindsFirst`, `Elf.FindStrtabTable`, `Elf.FindStrtabNone` and `Elf.FindStrtabFault`. A table range past the member, or a field ending on the content's NUL, is a fault in the model (see "## Left out"). |
| Elf.FindStrtabFindsFirst | src/main.cpp:211-221 | The section search returns the lowest-indexed section whose name begins with `.strtab`, with the range `[sh_offset, sh_offset + sh_size)`. It reports none only when every name was read and none qualifies. It faults only at a section it reached. |
| Elf.FindStrtabTable | src/main.cpp:211-221 | When a table is found, every earlier section has a readable name that does not begin with `.strtab`, and the range comes from the found section's header. |
| Elf.FindStrtabNone | src/main.cpp:211-224 | "No table" means that no section from the start index on is named `.strtab...`. |
| Elf.FindStrtabFault | src/main.cpp:206-221 | A fault is reported at a section the loop reached, after only non-`.strtab` sections. |
| Elf.Locate | src/main.cpp:200-224 | A member is skipped as not ELF exactly when it does not start with `7F 'E' 'L' 'F'`. A found table lies inside the member; the model faults on a range past the member and on a header field ending on the content's NUL (see "## Left out"). |
| Elf.LocatePicksFirstStrtab | src/main.cpp:206-221 | The located table is the lowest-indexed section, named through `e_shstrndx`, whose name begins with `.strtab`. Its bounds are that section's `sh_offset` and `sh_offset + sh_size`. |
| Elf.FindStringTable | src/main.cpp:196-224 | The imperative magic check and section loop with `break` return exactly `Locate`. |
| Elf.SearchSections | src/main.cpp:211-221 | The section loop returns the first `.strtab` section, or the fault or "none" of the reference search. |
| Elf.Matches | src/main.cpp:231 | `strcmp(pos, name) == 0`: the name's bytes, then a NUL, where the byte just past the content is the string's own NUL. It is pinned by `Elf.LongerEntryDoesNotMatch` and `Elf.SuffixOfEntryMatches`, and searched for by `Elf.FirstMatch`. |
| Elf.FirstMatch | src/main.cpp:228-238 | The position found is the smallest one in the table where the name's bytes are followed by NUL. None means that no position in the table matches. |
| Elf.FindSymbol | src/main.cpp:228-238 | The byte-by-byte scan with `break` returns exactly the first match. |
| Elf.LongerEntryDoesNotMatch | src/main.cpp:231 | A name followed by a non-NUL byte does not match there: `foo` is not found in `foobar\0`. |
| Elf.SuffixOfEntryMatches | src/main.cpp:231 | The tail of a longer entry matches: `foo` is found in `barfoo\0`. |
| FnidList.LineEnd | src/main.cpp:270-272 | The line end is a `\n` or the terminating NUL, at or after the line start. |
| FnidList.LineEndIsFirst | src/main.cpp:270-272 | No `\n` and no NUL comes before the line end found. |
| FnidList.FindLineEnd | src/main.cpp:270-272 | The two `strchr` searches, as a byte loop, stop exactly at `LineEnd`: the first `\n` or NUL at or after the line start. |
| FnidList.ColonIn | src/main.cpp:280 | A colon found lies in the line and is a `:`. |
| FnidList.ColonInIsFirst | src/main.cpp:280 | The colon found is the first in the line, and none is found only when the line has none. |
| FnidList.FindColon | src/main.cpp:280 | The `strchr` search for `:`, as a byte loop bounded by the line end, returns exactly `ColonIn`. |
| FnidList.ParseLine | src/main.cpp:270-290 | A parsed line hands over to a later position in the buffer, so the loop advances. |
| FnidList.ReadLine | src/main.cpp:270-290 | One pass of the loop body, built on the `FindLineEnd` and `FindColon` loops, returns exactly the reference line parse `ParseLine`: the request and the start of the next line. |
| FnidList.ParseLines | src/main.cpp:267-291 | Each line read moves past at least one byte: lines are read only while more than 3 bytes remain, and no more lines than bytes remain. A failure names a line that starts inside the file. |
| FnidList.Parse | src/main.cpp:265-291 | A file of 3 bytes or fewer gives the empty list. A list has no more requests than the file has bytes, and a failing line starts inside the file. `FnidList.FormatThenParse` gives its inverse. |
| FnidList.ParseFnidList | src/main.cpp:257-297 | The loop returns exactly `Parse`, one request per line in file order. A file of 3 bytes or fewer gives the empty list. |
| FnidList.ParsedNamesClean | src/main.cpp:270-286 | No parsed name contains a NUL or a `\n`. |
| FnidList.ParseHex | src/main.cpp:283 | `strtoul(…, 16)` stored in a `uint32_t`: a text that does not start with a hex digit reads as 0. `FnidList.HexRoundTrip` reads any 32-bit value back from its eight digits. |
| FnidList.HexRoundTrip | src/main.cpp:283 | Eight hex digits of a 32-bit value read back, through the `strtoul(…, 16)` model, as that value. |
| FnidList.ParseOpenLine | src/main.cpp:270-290 | A `HEX:name` text followed by `\n`, or by the NUL the loader puts after the file, parses to that name and hex value, with or without a `\r` before the terminator, and the next line starts after the terminator. |
| FnidList.ParseLineOf | src/main.cpp:270-290 | A line of hex digits, `:`, a name and a line break parses to that name and hex value, with or without a `\r` before the `\n`. |
| FnidList.ParseLastLineOf | src/main.cpp:267-291 | A last line with no `\n` that starts more than 3 bytes before the end of the file is ended by the loader's NUL (src/main.cpp:272) and is the last request read. |
| FnidList.UnterminatedLastLine | src/main.cpp:257-297 | A list of lines followed by an unterminated `HEX:name` line of more than 3 bytes parses to the list's requests, then that line's request. |
| FnidList.ShortTailDropped | src/main.cpp:265-267 | After the last `\n`, a final fragment of at most 3 bytes is never read as a line, whatever it holds: the list is the requests before it. |
| FnidList.FormatThenParse | src/main.cpp:265-291 | Writing a list as `HEX:name` lines and parsing it gives back the same requests in the same order, duplicates included. |
| FnidList.CarriageReturnStripped | src/main.cpp:276-277 | A `\r` before the line break is not part of the parsed name. |
| Patch.Apply | src/main.cpp:60-68 | One write puts the value's 4 big-endian bytes at its offset and leaves every other byte and the file length as they were. |
| Patch.ApplyAll | src/main.cpp:233-236 | The writes applied in order keep the file's length. Their effect is pinned by `Patch.ApplyAllFrame`, `Patch.ApplyAllAppend` and `Patch.LastWriteWins`. |
| Patch.ApplyAllFrame | src/main.cpp:233-236 | A byte that no write covers keeps its value. |
| Patch.ApplyAllAppend | src/main.cpp:194-240 | Two batches of writes applied one after the other are their concatenation applied. |
| Patch.LastWriteWins | src/main.cpp:226-240 | The 4 bytes of a write hold its value when no later write overlaps them, so of several writes to one place the last one wins. |
| Patch.ApplyElsewhere | src/main.cpp:235-236 | A write leaves a 4-byte place it does not overlap unchanged. |
| Patch.Hits | src/main.cpp:226-238 | The requests the request loop finds in the string table, in list order, never more than the list holds. `Patch.HitsAreMatches` and `Patch.LastHit` say which. |
| Patch.HitsAreMatches | src/main.cpp:226-238 | The found requests are exactly the requests whose name the string table holds: each found one is held, and each held one is found. None are found exactly when no request's name is there. |
| Patch.LastHit | src/main.cpp:226-240 | The last found request is the last request in the list whose name the table holds. |
| Patch.WritesTo | src/main.cpp:233-236 | One write per found request, in order, each of that request's FNID at the member's content offset plus 0x6C. |
| Patch.MemberWrites | src/main.cpp:196-240 | A member's writes all go to its content offset plus 0x6C. In the model they also fit in the file, since a write that would not is the fault `WriteOutsideFile`. A fault names the member. |
| Patch.Plan | src/main.cpp:194-241 | In the model, every planned write fits in the file: a member whose write would not fit ends the plan with `WriteOutsideFile` instead. |
| Patch.PlanFaultSticks | src/main.cpp:194-241 | Once a prefix of the members faults, later members add no writes. |
| Patch.PlanStopsAtFirstFault | src/main.cpp:194-241 | The run stops at the first member that faults, with that fault. Every earlier member was patched without one. There is no fault exactly when every member patches cleanly. |
| Patch.PlanWritesJustified | src/main.cpp:194-240 | Every write stores the FNID of a request whose name some member's string table holds, at that member's content offset plus 0x6C. |
| Patch.MemberWriteJustified | src/main.cpp:226-238 | A member writes only when one of the requested names is in its string table. |
| Patch.NoHitNoWrites | src/main.cpp:223-240 | When no requested name is in any member's string table, no write is planned and the file is byte-identical. |
| Patch.LastMatchWins | src/main.cpp:226-240 | After a member's writes, its FNID place holds the big-endian FNID of the last request in the list whose name the member's table holds. |
| Patch.StepsApart | src/main.cpp:160-174 | Members whose consecutive FNID places are at least 4 bytes apart have any two of them at least 4 bytes apart, in member order. |
| Patch.ConsecutiveAscending | src/main.cpp:160-174 | Such members are `Ascending`: every later member's FNID place starts after an earlier one's ends. |
| Patch.PlanGrows | src/main.cpp:194-241 | Patching one more member only appends writes, all to that member's FNID place. |
| Patch.PlanExtends | src/main.cpp:194-241 | After a prefix of the members patches cleanly, the whole run only appends writes, each to the FNID place of a later member. |
| Patch.PlanThrough | src/main.cpp:194-241 | A clean run up to a member is the run before it followed by that member's writes. |
| Patch.PlannedLastWrite | src/main.cpp:226-241 | In a clean run up to a member, the last write is that member's FNID place set to the last request it holds. |
| Patch.LaterWritesApart | src/main.cpp:194-241 | With ascending members, every write the run makes after a member lies past that member's FNID place. |
| Patch.FinalWrite | src/main.cpp:233-236 | A write that no later write reaches back over leaves its 4 bytes in the final file. |
| Patch.RunFinalWrite | src/main.cpp:194-241 | With ascending members, the last write of a member in a clean run is what its FNID place holds at the end of the whole run. |
| Patch.RunLastMatchWins | src/main.cpp:194-241 | With ascending members and no fault up to member i, the whole run leaves member i's FNID place holding the big-endian FNID of the last request whose name the member's table holds. |
| Patch.RunKeepsOtherBytes | src/main.cpp:194-241 | A byte outside every member's FNID place is the same after the whole run. |
| Patch.LastHitOfMember | src/main.cpp:226-240 | The last request a member holds is the last of the requests found in its table. |
| Patch.WriteFile | src/main.cpp:60-73 | Overwrites the bytes at the offset with the data and leaves the rest of the file as it was. |
| ArLib.ScanMembers | src/main.cpp:160-174 | The cursor loop over regular headers returns exactly the reference scan `Scan`. |
| ArLib.PatchRequests | src/main.cpp:226-240 | The request loop writes, for each request in order, its FNID at the target on the first hit. It reports trouble, having written nothing, exactly when some hit would write past the end of the file. |
| ArLib.WriteFnid | src/main.cpp:235-236 | `SwapEndian` followed by the 4-byte `WriteFile` changes the file exactly as one planned write. |
| ArLib.PatchMember | src/main.cpp:196-240 | One pass of the member loop changes the file exactly by that member's planned writes, or reports the member's fault, having written nothing. |
| ArLib.Arlib.constructor | src/main.cpp:100-102 | The globals start with no special members and an empty member list. |
| ArLib.Arlib.ParseArchive | src/main.cpp:104-176 | Returns false exactly for a non-archive and true exactly when the decoder succeeds. A fatal header is reported as the decoder's error. On success it records the two special members and appends the regular members to `archiveData`; otherwise the state is unchanged. |
| ArLib.Arlib.ReplaceFnid | src/main.cpp:192-243 | The member loop leaves the file equal to the original with the planned writes applied in order, and stops with the plan's fault. |
| Tool.Outcome | src/main.cpp:313-314 | In the model, a run never changes the file's length, because a write past the end stops the run. |
| Tool.OutcomeOfParsed | src/main.cpp:313-314 | `main` ignores the answer of `ParseArchive`: a non-archive leaves no members, so the outcome is the plan over the members recorded. |
| Tool.Run | src/main.cpp:299-317 | The archive file after `ParseArchive`, `ParseFnidList` and `ReplaceFnid` is `Outcome` of its old bytes and the list. |
| Tool.BadSymbolTableTerminatorWritesNothing | src/main.cpp:117-123 | A bad `/` terminator stops the tool before any write: the file is unchanged. |
| Tool.BadLongNamesTerminatorWritesNothing | src/main.cpp:139-145 | A bad `//` terminator stops the tool before any write: the file is unchanged. |
| Tool.NoMatchLeavesFileUnchanged | src/main.cpp:223-240 | If no requested name is in any member's string table, the archive file is byte-identical after the run. |
| Tool.DecodedAscending | src/main.cpp:160-174 | The members of a decoded archive are `Ascending`: their FNID places are in file order and do not overlap. |
| Tool.LastMatchWinsInFile | src/main.cpp:299-317 | If no member up to member i faults and request j is the last request whose name member i's table holds, the file after the run holds that request's big-endian FNID at member i's content offset plus 0x6C, even with later members patched. |
| Tool.OtherBytesUnchanged | src/main.cpp:299-317 | A byte outside the FNID place of every decoded member is the same after the run. |
| Tool.LastIndexOf | src/main.cpp:249-250 | `strrchr`: none exactly when the character is absent. Otherwise the index holds it and nothing after it does. |
| Tool.GetExecutableName | src/main.cpp:247-255 | The text after the last `/`, if there is one. Otherwise the text after the last `\`. Otherwise the whole argument. |

## Left out

- File I/O in `LoadFile`, `WriteFile` and `ParseArchive(const char*)`
  (src/main.cpp:26-73, 178-190):
  - the archive file is an `array<byte>`, and the list file is a byte
    sequence passed in;
  - a file that cannot be opened or read is not modelled;
  - `WriteFile` is the 4-byte overwrite `Patch.WriteFile`.
- `printf` diagnostics, the "All done!" line, the usage text, the
  argument-count check and `exit(0)` in `main`: output and command-line
  plumbing only.
- Process termination: `exit(1)` is the error value `IllegalHeader`.
  `Tool.Run` then writes nothing, which is what the ended process does. In
  the model the `Arlib` fields stay as they were, while the source would
  already have set `s_firstEntry` when the `//` check fails.
- Reads outside the decoded bytes become error values that end the run
  (the cases where the source's read is still defined are the lines below):
  `HeaderOverrun` and `ContentOverrun` in the decoder, and `Elf.Fault` in the
  section search, including a `strncmp` whose name would start past the
  member. A fault stops `ReplaceFnid` at that member and keeps the earlier
  writes.
- Elf.FindStrtab / Elf.Locate: the model faults on two kinds of read that
  are defined in the source. (a) A `.strtab` whose `sh_offset + sh_size`
  runs past the member's content gives `StringTableOutside`. The source only
  computes `symbols` and `symbolsEnd` from it (src/main.cpp:217-218). Its scan
  (src/main.cpp:226-238) stays within the content and its NUL whenever every
  request is found before the content ends, and it then patches the member.
  (b) A fixed-width field whose last byte is the content's `std::string` NUL
  at `obj.size()` gives `HeaderOutside` or `SectionHeaderOutside`. Examples
  are a 63-byte ELF, whose `e_shstrndx` ends on that NUL, an `sh_name` that
  ends there, and an `sh_offset` or `sh_size` that ends there. In both cases
  `Patch.Plan` stops the run at that member. So neither that member nor any
  later one is patched, where the source patches them.
- Archive.ReadMember: `LoadFile` allocates the file's size plus two zeroed
  bytes (src/main.cpp:39), and the model decodes the file's bytes only. A
  content that ends within those two bytes is copied by the source, zeros
  included, and decoding goes on. The model gives `ContentOverrun`, so
  `Decode` fails and no member of such an archive is patched.
- Archive.SpecialAt: for the same reason, a `/` or `//` header whose
  terminator falls on those two zero bytes gives `HeaderOverrun` where the
  source calls `exit(1)`, which the model writes as `IllegalHeader`. Nothing
  is written either way.
- Tool.Outcome / Patch.MemberWrites: a FNID write that reaches past the end of
  the file is defined in the source: `fseek` and `fwrite` (src/main.cpp:66-67)
  grow the file, and the tool goes on with the later requests and members.
  The model stops the run there with `WriteOutsideFile`, keeping the earlier
  writes. So the model never changes the file's length, which the source
  does for such an archive.
- Archive.SizeField: `strtoul` is read within the 10-byte field only, as
  leading blanks then decimal digits. A sign, and digits that would run on
  into an unchecked regular terminator, are not modelled.
- Archive.SizeField: the size is the exact value of up to ten digits, as a
  64-bit `unsigned long` gives it. Where `unsigned long` is 32 bits wide (a
  Windows build, which the `_CRT_SECURE_NO_WARNINGS` at src/main.cpp:1 points
  to), `strtoul` returns 0xFFFFFFFF for any value of 2^32 or more; that cap is
  not modelled, so the model's size differs from such a build's for fields of
  4294967296 and above.
- FnidList.ParseHex: an optional `0x`, then hex digits, whose value is kept
  modulo 2^32 by the store into `uint32_t`. This is what a 64-bit
  `unsigned long` gives for any value below 2^64; `strtoul`'s saturation to
  `ULONG_MAX` at 2^64 and above (a matter of the value, not of the number of
  digits, since leading zeros do not count) is not modelled. Where
  `unsigned long` is 32 bits wide (a Windows build, see src/main.cpp:1), every
  value of 2^32 or more becomes 0xFFFFFFFF instead: `100000000:foo` gives the
  FNID 0xFFFFFFFF there and 0 in the model. That width is not modelled.
  `FnidList.HexRoundTrip` and `FnidList.FormatThenParse` are stated for
  eight-digit FNIDs, where both widths agree. Leading whitespace and a sign
  are not modelled either.
- Elf.Matches: `strcmp` stops at the first NUL of the requested name, and
  `Matches` compares the whole name. The two agree for names without a NUL,
  which are all the list parser yields (`FnidList.ParsedNamesClean`); the
  `Patch` lemmas are stated for any request and apply to parsed lists
  through that lemma.
- FnidList.ParseLine: a line with no `:` before its end is
  `Err(MissingColon)`. In the source, `strchr` then finds a later colon or
  none. With a later colon the name length is negative. With none, `strchr`
  returns NULL, the name starts at address 1, and its length
  `endOfLine - 1` is huge. Either way `resize` fails before any write.
- FnidList.ParseLine: the `endOfLine[-1] == '\r'` test is made only when
  the line is not empty. For an empty first line the source reads before
  the buffer.
- Tool.GetExecutableName: the argument is the characters before its NUL.
  The result is a suffix of the argument rather than a pointer into it.
- The enums and `ProgramHeader` of src/elf.h have no logic. They are not
  part of this model.
