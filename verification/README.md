# Binout reader model

A Dafny model of the Binout reader of dynareadout and of the Go binding over it. A binout file
is what LS-DYNA writes its time-history output into. It starts with a small header. Then comes a
stream of records, each with a length field and a command field. CD records change the current
folder. DATA records declare a variable: a type tag, a name and a payload.

`binout_open` works in three steps:

- It checks the header of every file the glob pattern matched.
- It scans each file's records into a directory tree. It notes every variable's type, size,
  file index and payload offset.
- It compacts the array of file handles once the files that failed are closed.

The queries read a variable's payload back, or report its type, its folder's children or the
number of time steps of a folder. The Go binding turns those answers into slices, strings and
errors.

The model is pure functions over `seq<byte>` and `string`. There are two kinds of method:
loops the source writes out, and the Go binding's copies.

- `bytes.dfy`: little-endian fields and their round trip, `uint64_t` subtraction with
  wrap-around, and the signed view that `fseek` takes.
- `types.dfy`: the element type tags with their size and name tables. They are checked against
  an independent description of each type (kind and width).
- `header.dfy`: the header checks.
- `paths.dfy`: the current-path string that CD records change. It is checked against a reference
  semantics on a stack of path components.
- `records.dfy`: one record of the scan, with every read, seek and assertion of the source.
- `framing.dfy`: record encodings. An encoded record is decoded as the format lays it out.
- `scan.dfy`: the record loop as written, and a corrected loop that always terminates.
- `handles.dfy`: the compaction of the handle array.
- `errors.dfy`: the per-file error list, and `binout_open_error` as written and corrected.
- `open.dfy`: `binout_open` over the matched files, and `binout_close`.
- `read.dfy`: the typed reads, `binout_get_type_id`, `binout_variable_exists` and
  `binout_get_children`.
- `timesteps.dfy`: `_binout_is_d_string` and `binout_get_num_timesteps`.
- `binding.dfy`: the Go methods. This covers the open error, the typed reads, `carrToSlice`,
  `ReadString`, `GetTypeID`, `GetChildren`, `GetNumTimesteps` and the timed-read reshape.

The directory tree is not part of this model. The scan emits the list of insertions it makes,
and each query takes the answer of a directory lookup as a parameter.

The handle compaction does not renumber the file index stored with each variable. The model
keeps this behaviour:

- Every read indexes the compacted handle array with the glob position the scan stored
  (`Open.HandleFiles`).
- `Open.NothingDroppedKeepsIndices` shows that the two agree when no file was dropped.
- `Read.StaleFileIndex` shows what happens when one was: a variable can read another file's
  bytes, or find no handle at all.

The other quirks of the source are kept where the program shows them: the typed reads report a
type mismatch with the message as the source formats it, and the Go open error is read from the
message block as `binout_open_error` writes it. Each quirk also has a corrected member, with a
lemma that shows where the two differ. The one exception is the record loop. `binout_open` is
modelled with the corrected loop, because the loop as written need not terminate.

## Model

| member | source | states |
|---|---|---|
| Bytes.FieldFitsU64 | dynareadout/src/binout.c:125-133 | a field of at most 8 bytes, the widest the header check admits, holds a value below 2^64 |
| Bytes.LittleEndian | dynareadout/src/binout.c:174-177 | a field read into a zeroed `uint64_t` on a little-endian host: no bytes give 0, one byte gives that byte |
| Bytes.LittleEndianLowByte | dynareadout/src/binout.c:174-177 | the first byte of a field is its least significant one, and the rest is the value shifted down by eight bits |
| Bytes.LittleEndianBound | dynareadout/src/binout.c:174-177 | a field of k bytes decodes to a value below 256^k |
| Bytes.DecodeEncode | dynareadout/src/binout.c:174-177 | a value written as a k-byte little-endian field is read back unchanged |
| Bytes.EncodeDecode | dynareadout/src/binout.c:174-177 | re-encoding a decoded field in the same width gives the same bytes |
| Bytes.SubU64 | dynareadout/src/binout.c:179-181 | `uint64_t` subtraction: the true difference when it is not negative, otherwise the difference plus 2^64 |
| Bytes.SubU64Congruent | dynareadout/src/binout.c:179-181 | the wrapped difference is congruent to the true difference modulo 2^64 |
| Bytes.ToSigned64 | dynareadout/src/binout.c:265 | the `long` offset `fseek` receives: the value itself below 2^63, the value minus 2^64 above |
| Bytes.CString | dynareadout/src/binout.c:188-190 | the characters up to the first NUL of a byte buffer, each equal to its byte, with the NUL right after them |
| BinoutTypes.ToTag | binout.go:15-25 | each of the ten element types has a known tag |
| BinoutTypes.FromTag | binout.go:15-25 | a tag describes an element type exactly when it is 1 to 10, and that type's tag is the tag again |
| BinoutTypes.TagRoundTrip | binout.go:15-25 | element types and known tags correspond one to one |
| BinoutTypes.TypeSize | dynareadout/src/binout.c:585-610 | a known tag's size is its type's width in bytes (1, 2, 4, 8, 1, 2, 4, 8, 4, 8); any other tag's size is 255 |
| BinoutTypes.TypeName | dynareadout/src/binout.c:612-637 | a known tag's name is its kind followed by its bit width (INT8 … FLOAT64); any other tag's name is "UNKNOWN"; no name is longer than 7 characters |
| BinoutTypes.TypeNamesDistinct | dynareadout/src/binout.c:612-637 | distinct known tags have distinct names, none of them "UNKNOWN" |
| Header.CheckHeader | dynareadout/src/binout.c:120-136 | no error exactly for a supported header; otherwise the message of the first check that fails, in the order of the source: endianness, record length field, command field, typeid field, float format |
| Errors.EntryParts | dynareadout/src/binout.c:639-663 | splitting an entry after the file name finds the ": " separator exactly when it is there, and the parts rebuild the entry |
| Errors.AddFileError | dynareadout/src/binout.c:639-663 | one entry is appended, earlier ones are kept, and the new entry is the file name, ": " and the message, with no NUL |
| Errors.LastCell | dynareadout/src/binout.c:498-499 | the `memcpy` source holds the last entry and then its NUL; nothing lies past that NUL |
| Errors.Terminator | dynareadout/src/binout.c:500-501 | the byte after entry i is NUL exactly for the last entry and a line break otherwise |
| Errors.CopyFromLast | dynareadout/src/binout.c:498-499 | the copy overwrites the first `len` bytes with the last entry and leaves the rest of the block alone |
| Errors.AsWrittenBuffer | dynareadout/src/binout.c:493-504 | after i iterations the block has room for the first i entries and their terminators |
| Errors.AsWrittenOnlyLast | dynareadout/src/binout.c:494-504 | every byte the loop as written leaves in the block is unwritten, a terminator or a byte of the last entry |
| Errors.OpenErrorAsWritten | dynareadout/src/binout.c:487-508 | NULL exactly without errors; otherwise a block ending in NUL that begins with the last entry and holds nothing of any other entry |
| Errors.JoinedBuffer | dynareadout/src/binout.c:493-504 | the block of the corrected loop after i iterations has the size the loop reserves |
| Errors.JoinedBufferHoldsLines | dynareadout/src/binout.c:493-504 | after i iterations the corrected block holds the first i entries joined by line breaks, then the terminator |
| Errors.OpenErrorJoined | dynareadout/src/binout.c:487-508 | NULL exactly without errors; otherwise every entry in order, separated by line breaks and ended by NUL |
| Errors.SingleErrorAgrees | dynareadout/src/binout.c:487-508 | with one error the loop as written and the corrected one give the same block |
| Errors.FirstErrorLost | dynareadout/src/binout.c:498 | with two errors the block as written repeats the second entry and leaves bytes unwritten, unlike the corrected block |
| Errors.SplitJoin | dynareadout/src/binout.c:500-501 | entries without line breaks are recovered by splitting the joined text at its line breaks |
| Paths.Components | dynareadout/src/binout.c:202-230 | the components of a path are all non-empty names without a separator |
| Paths.ComponentsSplit | dynareadout/src/binout.c:216-224 | splitting a path at a separator splits its component list |
| Paths.ComponentOfComponent | dynareadout/src/binout.c:223-224 | a single name reads as itself |
| Paths.Render | dynareadout/src/binout.c:153-155 | the canonical spelling of a component list is an absolute path, "/" for the root |
| Paths.RenderRoundTrip | dynareadout/src/binout.c:232-236 | reading the canonical spelling back gives the component list |
| Paths.LastSep | dynareadout/src/binout.c:206 | the index of the last separator: a separator with none after it |
| Paths.MoveUp | dynareadout/src/binout.c:205-209 | `..` cuts the current path to a prefix that is still absolute |
| Paths.MoveUpCanonical | dynareadout/src/binout.c:205-209 | on a canonical path, `..` drops exactly the last component, and "/" stays "/" |
| Paths.Join | dynareadout/src/binout.c:211-224 | a component is appended after exactly one separator: the old path is a prefix, and the component list grows by that component |
| Paths.AppendAfterSeparator | dynareadout/src/binout.c:216-224 | appending a separator and a name adds that name to the component list |
| Paths.AppendToSeparator | dynareadout/src/binout.c:216-224 | appending a name after a trailing separator adds that name to the component list |
| Paths.JoinCanonical | dynareadout/src/binout.c:211-224 | on a canonical path, joining a component gives the canonical path one level deeper |
| Paths.CdRelative | dynareadout/src/binout.c:202-230 | the component loop of a relative CD keeps the path absolute |
| Paths.CdRelativeChecked | dynareadout/src/binout.c:214-220 | with the source's length assertions: when none fires, the result is the unchecked loop's and fits the 1024-byte buffer |
| Paths.CdRelativeResolves | dynareadout/src/binout.c:202-236 | from a canonical path, a relative CD lands on the canonical spelling of the reference resolution (`..` pops but never above the root, any other name pushes) |
| Paths.ChangeDirectory | dynareadout/src/binout.c:192-237 | an absolute CD path replaces the current path; from a canonical current path, a relative one resolves as the reference semantics says |
| Paths.TrailingSeparatorStays | dynareadout/src/binout.c:192-209 | an absolute CD path "/a/" is kept as spelled, and a following ".." stays in folder "a", where the reference semantics moves up to the root |
| Paths.RelativeFromCanonical | dynareadout/src/binout.c:202-236 | from a canonical current path, the relative CD loop lands on the components the reference semantics gives |
| Records.InitialState | dynareadout/src/binout.c:151-157 | the scan of a file starts after the header at the root path, with no current folder and nothing inserted |
| Records.ReadField | dynareadout/src/binout.c:42-48 | a field read succeeds exactly when it is non-empty and inside the file, and its value fits the field's width |
| Records.ReadBytes | dynareadout/src/binout.c:189-190 | a successful read of n bytes gives n bytes |
| Records.ChangeFolder | dynareadout/src/binout.c:185-237 | a CD record either continues after its path with at most one folder inserted, or fires an assertion |
| Records.ChangeFolderEffect | dynareadout/src/binout.c:192-237 | an absolute path becomes the current path and inserts its folder unless it is the root; a relative one moves to the resolved path and always inserts its folder |
| Records.DataRecord | dynareadout/src/binout.c:238-275 | a DATA record that completes inserts exactly one variable into the current folder and keeps the path; without a current folder the assertion fires |
| Records.Seek | dynareadout/src/binout.c:262-283 | `fseek(f, offset, SEEK_CUR)` succeeds exactly when the target is non-negative and below 2^63, the range of a `long`, and then lands on the target |
| Records.SkipPayload | dynareadout/src/binout.c:258-275 | the payload skip succeeds exactly when its target is a `long` position; it then lands there and inserts one variable with that size and the payload's offset into the current folder; otherwise it fails with "Failed to skip Data of DATA record" |
| Records.Step | dynareadout/src/binout.c:165-285 | the file is done exactly at its end; a record that continues keeps every earlier insertion |
| Records.RecordBody | dynareadout/src/binout.c:179-284 | the command dispatch never ends the file, and a continuing record keeps every earlier insertion |
| Records.StepIsRecordBody | dynareadout/src/binout.c:174-185 | once the length and command fields are read, a record is the dispatch on its command |
| Records.RecordBodyIsData | dynareadout/src/binout.c:238-242 | the DATA command goes to the DATA branch with the computed data length |
| Records.DataRecordIsSkip | dynareadout/src/binout.c:244-275 | with tag, name length and name read, a DATA record is the skip over its payload |
| Records.RecordBodyIsCd | dynareadout/src/binout.c:185-190 | a CD record whose path fits and is readable changes the folder to its NUL-terminated path |
| Framing.EncodeRecord | dynareadout/src/binout.c:174-181 | an encoded record's length counts its length field, its command field and the rest |
| Framing.AtSplit | dynareadout/src/binout.c:174-177 | proof helper: bytes placed at a position place each of their two parts |
| Framing.FieldAt | dynareadout/src/binout.c:174-177 | an encoded field read at its position gives back its value |
| Framing.LeadingFields | dynareadout/src/binout.c:174-177 | the two leading fields of an encoded record read back as its length and command |
| Framing.DataRecordFraming | dynareadout/src/binout.c:244-275 | an encoded DATA record that ends below 2^63 inserts one variable with its tag, name, payload length and the offset right after its name, and the scan continues right after the record |
| Framing.DataRecordAfterFields | dynareadout/src/binout.c:238-275 | the same, once the two leading fields are known |
| Framing.DataStep | dynareadout/src/binout.c:238 | with the DATA command read, a step is the DATA branch |
| Framing.DataRestFraming | dynareadout/src/binout.c:244-261 | the DATA branch over the encoded rest of the record inserts the variable and ends after the payload |
| Framing.NameRead | dynareadout/src/binout.c:255-256 | the name bytes placed at a position are read back |
| Framing.DataSkip | dynareadout/src/binout.c:259-275 | once the name is read, the data length is the payload length and the payload is skipped |
| Framing.PayloadSkipped | dynareadout/src/binout.c:262-275 | skipping a payload that ends below 2^63 ends right after it and inserts the variable pointing at it |
| Framing.SkipBeyondLongFails | dynareadout/src/binout.c:262-271 | a DATA record whose payload would end at 2^63 fails with "Failed to skip Data of DATA record" and inserts nothing |
| Framing.OtherRecordSkipped | dynareadout/src/binout.c:276-284 | a record that is neither CD nor DATA and ends below 2^63 moves the scan past itself and changes nothing else |
| Framing.OtherRecordAfterFields | dynareadout/src/binout.c:276-284 | the same, once the two leading fields are known |
| Framing.OtherRecordBody | dynareadout/src/binout.c:276-284 | the dispatch skips such a record by its data length |
| Framing.OtherLength | dynareadout/src/binout.c:179-181 | the record data length is the length of what follows the two leading fields, and it stays non-negative as a `long` |
| Framing.CdRecordFraming | dynareadout/src/binout.c:185-190 | an encoded CD record changes the folder to its path and the scan continues right after it |
| Framing.CdRecordAfterFields | dynareadout/src/binout.c:185-190 | the same, once the two leading fields are known |
| Framing.CdRecordBody | dynareadout/src/binout.c:185-190 | the CD branch over a readable path changes the folder and continues after the path |
| Framing.CdLength | dynareadout/src/binout.c:179-189 | the record data length of a CD record is the length of its path |
| Scan.ScanAsWritten | dynareadout/src/binout.c:165-285 | the record loop as written, bounded by fuel, keeps every insertion it has made |
| Scan.StepChecked | dynareadout/src/binout.c:165-285 | the corrected step is the source's step exactly when that step ends the scan or moves the position forward; otherwise it rejects the record with a file error |
| Scan.DataSkipIsExact | dynareadout/src/binout.c:179-278 | for a record length below 2^63, the wrapped record data length and the wrapped DATA payload length, read as a `long`, are the true (possibly negative) differences |
| Scan.StepMovesByLength | dynareadout/src/binout.c:172-284 | a record whose length field is below 2^63 and after which the scan goes on moves the position to its start plus that length, even a length shorter than its own fields |
| Scan.DataMovesByLength | dynareadout/src/binout.c:235-275 | the same for a DATA record: the payload skip lands at the record start plus the record length |
| Scan.RejectedLengths | dynareadout/src/binout.c:172-284 | the corrected step keeps every record of length 1 to 2^63 - 1 and rejects every record of length 0 after which the source would go on |
| Scan.ScanChecked | dynareadout/src/binout.c:165-285 | the corrected loop always ends, never by running out of fuel, and keeps every insertion it has made |
| Scan.CheckedAgreesWithAsWritten | dynareadout/src/binout.c:165-285 | for any fuel: if the loop as written meets a record that does not move it forward, the corrected loop rejects the file with that error; if it does not, the loop as written is still running or ends exactly as the corrected loop does |
| Scan.StopAgrees | dynareadout/src/binout.c:165-170 | a record that ends the scan ends both loops alike |
| Scan.NextAgrees | dynareadout/src/binout.c:165-285 | a record that moves the position forward moves both loops to the same state |
| Scan.StallRejected | dynareadout/src/binout.c:165-285 | a record after which the loop as written would go on without moving forward ends the corrected scan with a file error |
| Scan.ZeroLengthRecordHangs | dynareadout/src/binout.c:174-181 | a record with length 0 makes the loop as written run out of any fuel, while the corrected loop rejects it |
| Scan.ShortRecordStepsPast | dynareadout/src/binout.c:174-283 | a record of length 1 with one-byte fields seeks one byte back from the end of its fields; both loops read on from there and finish |
| Handles.Live | dynareadout/src/binout.c:297-314 | the non-NULL handles in order are at most as many as the slots |
| Handles.LiveConcat | dynareadout/src/binout.c:297-314 | the live handles of two slot runs are those of each run, in order |
| Handles.LiveAllSome | dynareadout/src/binout.c:297-314 | without a NULL slot the live handles are the slots' handles in order |
| Handles.LiveMember | dynareadout/src/binout.c:297-314 | every live handle sits in some slot |
| Handles.Fill | dynareadout/src/binout.c:302-306 | filling slot i from the last one drops the last slot: slot i holds the last handle, and every other slot keeps its handle |
| Handles.FillSlot | dynareadout/src/binout.c:300-311 | filling a NULL slot with the last handle keeps the multiset of live handles |
| Handles.Compact | dynareadout/src/binout.c:297-314 | after the clean-up no NULL remains, there are as many handles as non-NULL slots before, the handles are those slots' as a multiset, and in order when none failed |
| Open.CText | dynareadout/src/binout.c:642-643 | `strlen` sees the prefix up to the first NUL |
| Open.CTextOfText | dynareadout/src/binout.c:642-643 | a text without NUL is seen whole |
| Open.FileError | dynareadout/src/binout.c:96-97 | a file error appends one entry made of the file name and message as C strings |
| Open.FopenErrors | dynareadout/src/binout.c:91-101 | the first loop adds one error for each file that could not be opened, in file order, each naming the file and its `strerror` text; earlier errors are kept |
| Open.FileStep | dynareadout/src/binout.c:104-293 | one file of the second loop: an unopened file is passed over; a usable file keeps its handle only if its scan finished; a failing file gets one error and a closed handle; earlier insertions and errors stay |
| Open.ParsePass | dynareadout/src/binout.c:103-293 | after the second loop each slot holds its own file's glob index only for a scanned usable file, and there is one new error per dropped file |
| Open.StepKeepsPass | dynareadout/src/binout.c:287-292 | one more file keeps what the second loop promises |
| Open.StepKeepsSlots | dynareadout/src/binout.c:287-292 | the slot facts and the dropped count extend by the new file |
| Open.Open | dynareadout/src/binout.c:70-319 | no matched file gives the single "No files have been found" error; otherwise the errors and insertions of the two loops, the live handles as a multiset, every handle a usable file, and as many errors as failures |
| Open.HandlesUsable | dynareadout/src/binout.c:297-314 | every handle left after the compaction belongs to a file that was scanned |
| Open.HandleFiles | dynareadout/src/binout.c:383 | handle slot k reads the bytes of the file whose handle the compaction left in slot k |
| Open.NothingDroppedKeepsIndices | dynareadout/src/binout.c:302-303 | when no file was dropped, handle slot k still reads the file at glob position k |
| Open.Close | dynareadout/src/binout.c:321-354 | closing leaves no handle, no insertion and no error |
| Open.ClosedHasNoOpenError | dynareadout/src/binout.c:343-351 | after closing, the open error is NULL, as written and corrected |
| Read.TypeInvalidIsNoTag | dynareadout/src/binout.c:426 | the invalid id fits 8 bits and is no element type |
| Read.MismatchMessage | dynareadout/src/binout.c:372-377 | the corrected mismatch message fits the 50-byte buffer |
| Read.UpToSpaceOf | dynareadout/src/binout.c:374 | a name without spaces is read back from the front of a message |
| Read.TypeNameHasNoSpace | dynareadout/src/binout.c:612-637 | no type name contains a space |
| Read.MismatchNamesStoredType | dynareadout/src/binout.c:372-377 | the corrected message names the stored type, so different stored types give different messages |
| Read.MismatchStoredName | dynareadout/src/binout.c:372-377 | the stored type is read back from a corrected message |
| Read.StoredNameOf | dynareadout/src/binout.c:374 | a name placed after the message prefix is read back |
| Read.MismatchAsWritten | dynareadout/src/binout.c:374-376 | the message as written names the type of the entry's folder-or-file discriminator |
| Read.MismatchAsWrittenHidesStoredType | dynareadout/src/binout.c:372-376 | a FLOAT64 variable read as INT32 is not named FLOAT64 by the message as written, but is by the corrected one |
| Read.ElementCount | dynareadout/src/binout.c:399 | the element count is the number of whole elements in the payload |
| Read.ReadTyped | dynareadout/src/binout.c:356-402 | a missing variable gives the not-found error; a type mismatch gives the message as the source formats it, naming the discriminator's type; otherwise the payload at the stored offset, exactly `size` bytes, with `size / type_size` elements, or "Failed to read the data" |
| Read.StaleFileIndex | dynareadout/src/binout.c:275-314 | after file 0 of three is dropped, the handle array holds files 2 and 1: a variable of file 2 has no slot, and a variable of file 0 reads file 2's bytes |
| Read.GetTypeId | dynareadout/src/binout.c:415-431 | a found variable gives its stored element type and no error; a missing one sets the error and gives an id that is no element type |
| Read.VariableExists | dynareadout/src/binout.c:433-443 | a variable exists exactly when its type id can be read without error |
| Directory.ChildCount | dynareadout/src/binout.c:523 | the `num_children` a lookup reports: `~0` for a missing path, else the number of names; a count below `~0` means the path exists |
| Read.GetChildren | dynareadout/src/binout.c:445-477 | NULL exactly for a missing path; otherwise the children's names in insertion order, as many as the count |
| Read.PayloadAt | dynareadout/src/binout.c:259-262 | the payload of an encoded DATA record sits right after its name |
| Read.ReadFound | dynareadout/src/binout.c:382-399 | a variable whose payload sits in its file reads back as that payload |
| Read.ReadInserted | dynareadout/src/binout.c:273-275 | the variable a DATA record inserts reads back as the payload it points at |
| Read.ReadBackPayload | dynareadout/src/binout.c:244-275 | writing a DATA record, scanning it and reading its variable gives back the payload and its element count |
| Timesteps.IsDString | dynareadout/src/binout.c:665-684 | accepted exactly for "d" followed by one or more digits and nothing else |
| Timesteps.FirstD | dynareadout/src/binout.c:532-536 | the first time-step name: nothing before it is one |
| Timesteps.LastD | dynareadout/src/binout.c:546-550 | the last time-step name: nothing after it is one |
| Timesteps.GetNumTimesteps | dynareadout/src/binout.c:510-554 | 0 without children; `~0` for a missing path or a folder of variables; otherwise the span from the first to the last time-step name, and 0 without any |
| Timesteps.ContiguousSpan | dynareadout/src/binout.c:528-553 | with the time steps side by side, the count is the number of time steps |
| Timesteps.DigitChar | dynareadout_test.go:31 | each digit of a label is a decimal digit |
| Timesteps.DLabel | dynareadout_test.go:31 | the writer's label "d" plus six digits is a time-step name |
| Timesteps.StepNames | dynareadout_test.go:30-31 | the labels of time steps 1 to n, in order |
| Timesteps.NodoutTimesteps | dynareadout_test.go:24-31 | "metadata" followed by n time steps counts n time steps |
| Binding.GoString | binout.go:66 | `C.GoString` reads up to a NUL; the text has no NUL and is followed by one |
| Binding.GoStringOfCells | binout.go:66 | a NUL-terminated text reads back as itself |
| Binding.JoinHasNoNul | binout.go:66 | entries without NUL join into a text without NUL |
| Binding.OpenError | binout.go:58-71 | no error exactly without file errors; with one error, that entry; with more, a text that, if it can be read at all, starts with the last entry and holds no character of any other |
| Binding.ReadsPastLast | binout.go:66 | a NUL-terminated read of a block that starts with an entry without NUL reads all of that entry |
| Binding.ReadHeadedByLast | binout.go:66 | reading the block as written gives the last entry, then only line breaks and its characters |
| Binding.OneErrorRead | binout.go:64-66 | with one error the block as written reads as that error |
| Binding.GoStringAfter | binout.go:66 | a read that fails after a NUL-free text fails as a whole |
| Binding.GoFirstErrorLost | binout.go:64-66 | with errors "a: x" and "b: y" the read of the block as written reaches unwritten bytes |
| Binding.GoBothErrorsKept | binout.go:64-66 | the same errors read from the corrected block give both entries, one per line |
| Binding.OpenErrorCorrected | binout.go:58-71 | the error over the corrected block: none exactly without file errors; otherwise the entries joined by line breaks |
| Binding.OpenErrorLines | binout.go:64-68 | the error over the corrected block lists every file error, in order |
| Binding.CarrToSlice | binout.go:45-52 | a slice of `csize` elements, element i converted from C element i |
| Binding.ChunkBound | binout.go:289-295 | proof helper: row i ends inside the first `count` rows |
| Binding.Chunks | binout.go:289-295 | `count` rows of `width` values each |
| Binding.Chunk | binout.go:291-294 | a row has `width` values |
| Binding.FlattenChunks | binout.go:289-295 | the rows laid end to end are the flat values they cover |
| Binding.ChunksOfFlatten | binout.go:289-295 | rows of equal width laid end to end and cut again are the same rows |
| Binding.ChunkOfPrefix | binout.go:293 | a row inside a prefix does not depend on what follows |
| Binding.ReadSlice | binout.go:77-92 | the error string of the C read exactly when it set one; otherwise one converted element per whole element of the payload |
| Binding.UnsignedRoundTrip | binout.go:145-211 | unsigned values written as little-endian words read back as themselves |
| Binding.TypeIdAsWritten | binout.go:326-333 | the id as written is below 256, the C function's 8-bit result |
| Binding.MissingVariableNotInvalid | binout.go:26 | for a missing variable the id as written is not `BinoutTypeInvalid` |
| Binding.TypeId | binout.go:326-333 | the corrected id is `BinoutTypeInvalid` exactly for a missing variable, else the stored tag |
| Binding.TypeIdsAgree | binout.go:326-333 | both ids agree on every stored variable and both name "UNKNOWN" for a missing one |
| Binding.NotAStringMessage | binout.go:261-262 | the error for a non-byte type begins `Type "` followed by the type name |
| Binding.ReadString | binout.go:247-274 | a missing variable or a non-byte type is refused by name; otherwise the payload byte for byte, exactly `size` characters, or the read error |
| Binding.ReadStringOfText | binout.go:270 | a byte variable holding a text, trailing blanks included, reads back as that text |
| Binding.ChildrenAsWritten | binout.go:335-353 | as written, a missing path panics; otherwise the names in the C array's order |
| Binding.Children | binout.go:335-353 | corrected, a missing path has no children; otherwise the names in the C array's order |
| Binding.ChildrenAgree | binout.go:335-353 | wherever the binding as written returns, the corrected one returns the same |
| Binding.NumTimesteps | binout.go:362-373 | an error exactly where the C count is `~0`; otherwise the C count unchanged |
| Binding.Reshape | binout.go:289-295 | `numTimesteps` rows of `numValues` values, the flat values cut in order |
| Binding.CopyRow | binout.go:291-294 | one row is the run of flat values starting at its offset |
| Binding.ReshapeIndex | binout.go:293 | value j of row i is flat value `i * numValues + j` |

## Left out

- File system: `binout_glob`, `fopen`, `fread`, `fseek` and `ftell` are not modelled as calls.
  - `fseek` relative to the current position is modelled as failing exactly when the target is
    negative or beyond 2^63 - 1, the largest `long` file position; no other seek error is modelled.
  - Each matched file is given as its name and what opening it yields: the `strerror` text, or
    its decoded header (None when reading the header fails), its bytes and the position after
    the header.
- The file-size probe and its "Failed to get the file size" errors (dynareadout/src/binout.c:139-147)
  are left out. The file size is the length of the byte sequence.
- An `ftell` that fails at the head of the record loop (dynareadout/src/binout.c:168) is left out.
- The directory tree is not part of this model. That covers insertion, lookup and the children
  lists.
  - The scan emits its insertions as a list.
  - The queries take the lookup's answer as a parameter: a variable entry, or a children list in
    insertion order.
  - A missing path is assumed to report the count `~0`, as the comparison at dynareadout/src/binout.c:523 implies.
- The path helpers are not part of this model.
  - `path_view` is modelled as splitting on '/' and dropping empty names.
  - `path_move_up` is modelled as the index of the last separator.
- The header of the C library that defines the constants is not part of this model. These values
  are assumed:
  - the CD and DATA command codes 2 and 3;
  - little-endian 1 and IEEE 0;
  - the invalid type id 255;
  - the variable-entry discriminator 1;
  - the DATA name-length field width 1, which the `uint8_t` it is read into supports;
  - type tags equal to the Go constants 1 to 10.
- The error string of a handle is not modelled as state. Each query returns its message instead.
  This covers clearing it, replacing it, and the Go side reading it after the call.
- Memory management is left out: allocation, `realloc`, `free`, `binout_free_children` and the
  profiling macros.
- Float payloads are opaque bytes. The Go conversions are a parameter of the reads.
- The C timed reads are not part of this model. The Go reshape starts from the flat array they
  return.
- `_binout_get_command_name` (dynareadout/src/binout.c:556-583) is left out because nothing in
  the core calls it.
- The d3plot and keyword-file bindings are left out, and so is the thread-safety build option.
- Read.ReadTyped: the "Failed to seek to the position of the data" error never arises. Seeking to
  a stored offset cannot fail in the model, because `fseek` past the end of a file succeeds and the
  read then fails.
- Binding.ReadSlice: leaves out a stored file index past the handle array (after files were
  dropped). The source indexes out of bounds there.
- Binding.ReadString: does not model the `C.int` truncation of a size of 2^31 or more in
  `C.GoStringN`.
- Binding.ChildrenAsWritten: says nothing about folders with 2^63 or more children.
- Binding.NumTimesteps: requires fewer than `~0` children.
- Timesteps.GetNumTimesteps: the span is stated only for fewer than `~0` children.
- Handles.Compact: states the exact order of the handles only when no file failed. Otherwise it
  states their multiset.
- Open.Open: states the handles as the multiset of the live slots.
- Open.FileStep: scans with the corrected loop `Scan.ScanChecked`, not the loop as written. A
  record after which the source would go on from its own start or from an earlier position
  (length 0, or 2^63 and more) drops the file with an error the source never reports. With
  length 0 the source never ends. With a backward seek the source reads on from the earlier
  position, and that is not modelled. `Open.ParsePass` and `Open.Open` inherit this.
- Paths.ChangeDirectory: an absolute CD path with a trailing or doubled separator is kept as
  spelled, so the current path is no longer canonical. A ".." after that cuts only up to the
  last separator and does not leave the folder (`Paths.TrailingSeparatorStays`). This rests on
  the model of `path_move_up` as the index of the last separator. The agreement with the
  reference semantics is stated only from a canonical current path.
- Paths.CdRelative: an empty relative CD path leaves the current path unchanged. The source runs
  the join once before the first `path_view_advance`, so it would likely append a separator
  ("/a" becomes "/a/"), after which ".." stays in "/a". This depends on `path_view_new("")`,
  which is not part of this model.
- Binding.ReadString: leaves out a stored file index past the handle array (after files were
  dropped), as `Binding.ReadSlice` does. The source indexes out of bounds there.
- Scan.ScanAsWritten: bounded by fuel, because the loop as written need not terminate. Its
  outcome after the fuel runs out is not modelled.

## Findings

| source | as written | input that shows it | evidently intended | confidence | as-written member | corrected member |
|---|---|---|---|---|---|---|
| dynareadout/src/binout.c:174-181 | the record loop seeks by the wrapped record data length, so a record whose length field is 0 seeks back to where it started | one-byte fields, bytes `[0, 1]`: the loop reads the same record forever | a record that does not move the position forward is rejected as a file error | not executed | Scan.ZeroLengthRecordHangs | Scan.ScanChecked |
| dynareadout/src/binout.c:498 | every iteration copies the last entry to offset 0 | errors `["a: x", "b: y"]` give "b: y\n", four unwritten bytes, then NUL | the entries joined by line breaks | not executed | Errors.FirstErrorLost | Errors.OpenErrorJoined |
| dynareadout/src/binout.c:375 | the mismatch message names `file->type`, the folder-or-file discriminator, not `file->var_type` | a FLOAT64 variable read as INT32 is reported as being of some other type | the message names the stored element type | not executed | Read.MismatchAsWrittenHidesStoredType | Read.MismatchNamesStoredType |
| binout.go:326-333 | `GetTypeID` widens the 8-bit id, so a missing variable gives 255 | a missing variable: 255 is not `BinoutTypeInvalid` | `BinoutTypeInvalid` for a missing variable | not executed | Binding.MissingVariableNotInvalid | Binding.TypeIdsAgree |
| binout.go:338-345 | `GetChildren` makes a slice of the reported count, `~0` for a missing path | a missing path: the slice cannot be made and the call panics | an empty slice for a missing path | not executed | Binding.ChildrenAsWritten | Binding.ChildrenAgree |
