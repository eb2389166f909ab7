# iniparser in Dafny

A model of the INI configuration library in `src/iniparser.c`, with proofs about it. A
configuration (`CONFIG_INI`) is an ordered list of sections (`SECTION_INI`). Each section is
an ordered list of key/value pairs (`KEYVALUE_INI`). The library has three parts, and the
model covers all of them:

- **The line grammar.** The two cursor-driven recognisers `ini_cfg_parse_section_name` and
  `ini_cfg_parse_key_value`, plus the way `ini_cfg_read` classifies each line.
- **The mutation API.** `ini_cfg_add_section`, `ini_cfg_find_sections`,
  `ini_cfg_delete_sections`, `ini_cfg_find_key`, `ini_cfg_add_key`, `ini_cfg_set_value` and
  `ini_cfg_delete_key`.
- **The writer `ini_cfg_save`.** The text it writes and the temporary path it writes to.

The modules follow the structure of the program:

| file | module | what it holds |
|---|---|---|
| `results.dfy` | `Results` | the errno values (`EINVAL`, `ENOENT`, `EEXIST`, `EBADMSG`) and the result types |
| `chars.dfy` | `Chars` | C strings (no NUL), the C-locale character classes, and the cursor loop `while (*p && class(*p)) p++` as the function `Span` and the method `Skip` |
| `sequences.dfy` | `Sequences` | an order-preserving `Filter` and its lemmas |
| `grammar.dfy` | `Grammar` | each recogniser as a function stating where each cursor loop stops, and as the C loops (a method proved equal to that function); both-direction lemmas relating the function to the grammar |
| `document.dfy` | `Document` | the document as values, and what each mutator computes on it |
| `iniconfig.dfy` | `IniConfig` | `Section` and `Config` as classes whose methods update in place, each proved to produce the state the matching `Document` function computes |
| `reader.dfy` | `Reader` | `ini_cfg_read` over the lines `fgets` returns: a specification fold, and the imperative read loop proved against it |
| `writer.dfy` | `Writer` | `ini_cfg_save`: the temporary path, and the write loops proved to produce `Serialize` of the configuration |
| `roundtrip.dfy` | `RoundTrip` | saving a well-formed document and reading its lines back with the model's read gives the same document (the C read loop as written also takes its error path at the end of such a file; see Left out); a section name the grammar does not allow is saved but cannot be read back |
| `linked.dfy` | `LinkedDelete` | the delete walks exactly as written, on a numbered linked list, with the inputs that leave a freed node linked (see Findings) |

Two behaviours of the code are worth knowing:

- **`[Sec tion]` is rejected.** After the letters of the name, the recogniser skips blanks and
  then expects `]` (lines 711-721). See `Grammar.HeaderRejectsInnerBlank`.
- **A long line is split, not reported.** `fgets` reads into a 1024-byte buffer, so a longer
  line reaches the loop as several pieces (see Left out).

## Model

| member | source | states |
|---|---|---|
| Chars.Skip | src/iniparser.c:682-685 | a whitespace/letter/value cursor loop stops exactly where `Span` says: at the end of the longest run of the class |
| Chars.Span | src/iniparser.c:682-685 | the cursor loop `while (*p && class(*p)) p++` from a position stops at a position between it and the end of the string |
| Chars.SpanRun | src/iniparser.c:682-685 | every character the loop passes is of the class, and it stops at the end of the string or at a character outside the class |
| Grammar.ParseSectionName | src/iniparser.c:681-734 | every rejection of a header line is EBADMSG, and an accepted name is never empty |
| Grammar.ScanSectionName | src/iniparser.c:670-742 | the cursor loops and checks of the header recogniser return exactly what `ParseSectionName` returns, error or name |
| Grammar.HeaderAccepted | src/iniparser.c:681-742 | every line `WS* '[' WS* ALPHA+ WS* ']' WS*` is accepted and its letter run is returned |
| Grammar.HeaderParsed | src/iniparser.c:681-742 | conversely, every accepted line has that form around the returned name, and the name is one or more letters |
| Grammar.HeaderRejectsEmptyName | src/iniparser.c:729-734 | `[]` is rejected with EBADMSG: the name is empty |
| Grammar.HeaderRejectsDigit | src/iniparser.c:705-721 | `[1Sec]` is rejected with EBADMSG: the letter loop stops at the digit, which is not `]` |
| Grammar.HeaderRejectsInnerBlank | src/iniparser.c:711-721 | `[Sec tion]` is rejected with EBADMSG: after the blank comes `t`, not `]` |
| Grammar.HeaderRejectsTrailingText | src/iniparser.c:724-734 | `[Sec]x` is rejected with EBADMSG: text follows the closing bracket |
| Grammar.ParseKeyValue | src/iniparser.c:779-834 | every rejection of a key/value line is EBADMSG, and an accepted key and value are never empty |
| Grammar.ScanKeyValue | src/iniparser.c:764-848 | the cursor loops and checks of the key/value recogniser return exactly what `ParseKeyValue` returns, error or key and value |
| Grammar.EntryAccepted | src/iniparser.c:779-848 | every line `WS* ALNUM+ WS* '=' WS* NONWS+ WS*` is accepted and its key run and value run are returned |
| Grammar.EntryParsed | src/iniparser.c:779-848 | conversely, every accepted line has that form around the returned key and value, with the key alphanumeric and the value free of whitespace |
| Grammar.EntryRejectsEmptyKey | src/iniparser.c:830-834 | `=value` is rejected with EBADMSG: the key is empty |
| Grammar.EntryRejectsEmptyValue | src/iniparser.c:814-819 | `key=` is rejected with EBADMSG: nothing follows the operator |
| Grammar.EntryRejectsMissingOperator | src/iniparser.c:801-806 | `key value` is rejected with EBADMSG: no `=` after the key |
| Grammar.EntryRejectsTextAfterValue | src/iniparser.c:825-834 | `key =value extra` is rejected with EBADMSG: text follows the blank after the value |
| Grammar.HeaderFromFirstNonBlank | src/iniparser.c:96-125 | the header recogniser gives the same result from the first non-blank character, where the read loop hands it the line, as from the start of the line |
| Grammar.EntryFromFirstNonBlank | src/iniparser.c:96-105 | the key/value recogniser gives the same result from the first non-blank character as from the start of the line |
| Document.FirstKey | src/iniparser.c:403-409 | the position of the first pair with the key: no earlier pair has it, and there is none exactly when no pair has it |
| Document.KeyIndex | src/iniparser.c:389-414 | as FirstKey, except that an empty key finds nothing |
| Document.AddKeyTo | src/iniparser.c:416-468 | EINVAL exactly when the key or the value is empty; EEXIST exactly when the key is present; success exactly when both are non-empty and the key is new, and then the pair is appended at the end |
| Document.SetValueIn | src/iniparser.c:484-524 | EINVAL exactly when the key or the value is empty; ENOENT exactly when the key is absent; success exactly when both are non-empty and the key is present, and then the first pair with the key holds the new value while every other pair keeps its place |
| Document.DeleteKeyFrom | src/iniparser.c:526-569 | EINVAL exactly when the key is empty; else the pairs kept are exactly those with another key |
| Document.AddSectionTo | src/iniparser.c:196-240 | EINVAL exactly when the name is empty, success exactly when it is not; then the old sections stay in place and one new empty section with the name follows |
| Document.FindSectionsIn | src/iniparser.c:260-308 | EINVAL exactly when the name is empty, success exactly when it is not; then the sections found are exactly those with the name |
| Document.DeleteSectionsFrom | src/iniparser.c:344-387 | EINVAL exactly when the name is empty, success exactly when it is not; then the sections kept are exactly those with another name |
| Document.AddKeyKeepsUnique | src/iniparser.c:433-468 | adding a key keeps the keys of a section unique |
| Document.AddKeyThenFind | src/iniparser.c:455-468 | after an add, the key is found at the new last position with the value added |
| Document.AddKeyTwiceFails | src/iniparser.c:433-437 | adding the same key again fails with EEXIST, whatever the value |
| Document.SetValueThenFind | src/iniparser.c:501-519 | after a set, the key is found at the same position with the new value, and unique keys stay unique |
| Document.DeleteKeyKeepsOrder | src/iniparser.c:543-566 | the pairs kept by a delete are the filter of the pairs, in their order |
| Document.DeleteKeyAbsent | src/iniparser.c:543-566 | deleting an absent key changes nothing |
| Document.DeleteKeyUnique | src/iniparser.c:543-566 | with unique keys, deleting a present key removes exactly that one pair |
| Document.DeleteKeyThenFind | src/iniparser.c:543-566 | after a delete the key is not found, and unique keys stay unique |
| Document.AddSectionThenFind | src/iniparser.c:225-240 | after adding a section, finding its name gives the old matches followed by the new empty section, so duplicate names are kept |
| Document.AddSectionKeepsOthers | src/iniparser.c:225-240 | adding a section does not change what is found under any other name |
| Document.FindSectionsInOrder | src/iniparser.c:299-305 | the sections found are the matching sections at increasing positions of the list, and every matching position is among them |
| Document.DeleteSectionsThenFind | src/iniparser.c:357-382 | after a delete, no section of that name is found |
| Document.DeleteSectionsKeepsOthers | src/iniparser.c:357-382 | a delete does not change what is found under any other name |
| Document.DeleteSectionsAbsent | src/iniparser.c:357-382 | deleting a name no section has changes nothing |
| IniConfig.Section.constructor | src/iniparser.c:213-223 | a new section has the given name and no pairs |
| IniConfig.Section.FindKey | src/iniparser.c:389-414 | the walk that stops at the first match returns exactly `KeyIndex` of the pairs |
| IniConfig.Section.AddKey | src/iniparser.c:416-482 | the status is that of `AddKeyTo` on the old pairs; on success the pairs become its result, and on failure they are unchanged |
| IniConfig.Section.SetValue | src/iniparser.c:484-524 | the status is that of `SetValueIn` on the old pairs; on success the pairs become its result, and on failure they are unchanged |
| IniConfig.Section.DeleteKey | src/iniparser.c:526-569 | the filtering walk: the status is that of `DeleteKeyFrom` on the old pairs, and on success the pairs become its result |
| IniConfig.CountNamed | src/iniparser.c:280-286 | the first loop of find_sections counts exactly the sections with the name |
| IniConfig.CollectNamed | src/iniparser.c:299-305 | the second loop collects exactly the sections with the name, in list order |
| IniConfig.KeepOthers | src/iniparser.c:357-382 | the delete walk keeps exactly the sections with another name, in list order |
| IniConfig.Config.constructor | src/iniparser.c:71-81 | a new configuration has the given path and no sections |
| IniConfig.Config.AddSection | src/iniparser.c:196-258 | the status is that of `AddSectionTo` on the old contents; on success one fresh section is linked at the tail and handed out, and the contents become its result; on failure nothing changes and no section is handed out; no node is linked twice |
| IniConfig.Config.FindSections | src/iniparser.c:260-330 | the status is that of `FindSectionsIn`; on success the nodes returned are the named nodes in list order, the count is their number, and their contents are `FindSectionsIn` of the contents |
| IniConfig.Config.DeleteSections | src/iniparser.c:344-387 | the status is that of `DeleteSectionsFrom`; on success the nodes kept are the filter of the old list, and the contents become `DeleteSectionsFrom` of the old contents; no node is linked twice |
| Reader.SplitLines | src/iniparser.c:83-92 | the lines successive `fgets` calls return: they join to the text, none is empty, all but the last end with their only newline, and the last holds no newline before its final character |
| Reader.SplitJoin | src/iniparser.c:83-92 | splitting the text of whole lines gives those lines back |
| Reader.ReadHeaderInto | src/iniparser.c:106-125 | the header branch succeeds exactly when the recogniser accepts the text; every failure is EBADMSG; on success the document gains one new empty section with the recognised name after the existing ones |
| Reader.ReadEntryInto | src/iniparser.c:126-156 | EBADMSG with no section yet or when the recogniser rejects the text; EEXIST when the last section already holds the key; else the last section gains the recognised pair at its end and nothing else changes |
| Reader.ReadLineInto | src/iniparser.c:94-156 | one pass of the read loop adds at most one section and changes only the last section besides; what each kind of line does is stated by `SkippedLine`, `HeaderLineRead` and `EntryLineRead` |
| Reader.HeaderLineRead | src/iniparser.c:94-125 | a line whose first non-blank is `[` adds one new empty section, named as the header recogniser reads the whole line, or fails with EBADMSG when it rejects the line |
| Reader.EntryLineRead | src/iniparser.c:94-156 | any other non-comment line fails with EBADMSG before the first header or when the key/value recogniser rejects it, with EEXIST when the current section holds the key, and else adds the pair to the current section |
| Reader.HeaderGrammarRead | src/iniparser.c:94-125 | every line `WS* [ WS* ALPHA+ WS* ] WS*` appends a new empty section with that name |
| Reader.EntryGrammarRead | src/iniparser.c:94-156 | after a header, every line `WS* ALNUM+ WS* = WS* NONWS+ WS*` adds its pair to the last section, or fails with EEXIST when the key is already there |
| Reader.ReadFrom | src/iniparser.c:83-157 | once the read loop has failed, it stays failed with that error |
| Reader.ReadDoc | src/iniparser.c:83-157 | whatever the read of a file's lines accepts is well formed: letter-only names, alphanumeric keys unique in their section, values without blanks |
| Reader.ReadFromAppend | src/iniparser.c:83-157 | reading two runs of lines is reading the second from where the first stopped |
| Reader.ReadDocSnoc | src/iniparser.c:83-157 | reading one more line is one more pass of the loop on the document read so far |
| Reader.ReadDocStops | src/iniparser.c:115-155 | the first error ends the read: later lines do not change the result |
| Reader.SkippedLine | src/iniparser.c:96-105 | a blank line, or one whose first non-blank character is `#`, leaves the document unchanged |
| Reader.ReadHeaderKeepsWellFormed | src/iniparser.c:106-125 | a header line read into a well-formed document keeps it well formed |
| Reader.ReadEntryKeepsWellFormed | src/iniparser.c:126-156 | a pair line read into a well-formed document keeps it well formed, with unique keys per section |
| Reader.ReadLineKeepsWellFormed | src/iniparser.c:94-156 | any line read into a well-formed document keeps it well formed |
| Reader.ReadFromWellFormed | src/iniparser.c:83-157 | the read loop started from a well-formed document only produces well-formed documents |
| Reader.Read | src/iniparser.c:44-194 | EINVAL for an empty path; else the status is that of `ReadDoc` on the lines; on failure no configuration is handed out; on success a fresh configuration holding the path and exactly `ReadDoc` of the lines |
| Reader.ReadLine | src/iniparser.c:94-156 | one pass of the imperative loop leaves the configuration holding `ReadDoc` of the lines so far, with the current section the last one |
| Reader.ReadHeader | src/iniparser.c:106-125 | the header branch: parse, then link a fresh section, which becomes current, as `ReadHeaderInto` says |
| Reader.ReadEntry | src/iniparser.c:126-156 | the pair branch: parse, then add to the current section, with the other sections unchanged, as `ReadEntryInto` says |
| Writer.TempPath | src/iniparser.c:579-597 | the temporary path is the path followed by `.new` |
| Writer.EntryLines | src/iniparser.c:612-615 | one `key=value` line per pair, in order |
| Writer.EntriesTextLines | src/iniparser.c:612-615 | the pairs' text is the text of their lines |
| Writer.SectionTextLines | src/iniparser.c:608-615 | a section's text is the text of its lines: a blank line, `[name]`, then one `key=value` line per pair |
| Writer.SerializeSnoc | src/iniparser.c:606-616 | the text of one more section is the text so far followed by that section's header and pairs |
| Writer.SerializeLines | src/iniparser.c:606-616 | the saved text is the text of a blank line, a header line and the pair lines of each section in order |
| Writer.Save | src/iniparser.c:571-616 | EINVAL for an empty path or no configuration; else the temporary path and the text `Serialize` gives for the configuration's contents |
| Writer.WriteSections | src/iniparser.c:606-616 | the loop over the sections writes `Serialize` of their contents |
| Writer.WriteSection | src/iniparser.c:608-615 | one section: its header text, then the text of its pairs |
| RoundTrip.DocLinesAreLines | src/iniparser.c:610-614 | each line saved for a well-formed document ends with its only newline |
| RoundTrip.HeaderParses | src/iniparser.c:610 | the header line written for a well-formed name is accepted by the header recogniser and gives that name back |
| RoundTrip.PairParses | src/iniparser.c:614 | the line written for a well-formed pair is accepted by the key/value recogniser and gives that key and value back |
| RoundTrip.ReadHeaderBack | src/iniparser.c:106-125 | the saved header line of a well-formed name reads back as a new empty section |
| RoundTrip.ReadPairBack | src/iniparser.c:126-156 | the saved line of a well-formed pair whose key is new reads back into the last section |
| RoundTrip.ReadSectionBack | src/iniparser.c:606-616 | the saved lines of a well-formed section read back as that section after the ones read |
| RoundTrip.ReadDocLinesBack | src/iniparser.c:83-157 | the saved lines of a well-formed document read back as that document |
| RoundTrip.SaveThenRead | src/iniparser.c:606-616 | splitting the saved text into lines and reading them gives back exactly the well-formed document saved |
| RoundTrip.SpacedNameNotReadBack | src/iniparser.c:207-211 | a section named `a b`, which add_section accepts, is saved but reading it back fails with EBADMSG |
| LinkedDelete.UnlinkFrom | src/iniparser.c:360-382 | the walk as written frees only nodes with the name and keeps the list's names and links well formed |
| LinkedDelete.DeleteAsWritten | src/iniparser.c:344-387 | EINVAL exactly for an empty name; else it frees only nodes with the name |
| LinkedDelete.MiddleMatchDangles | src/iniparser.c:368-381 | deleting the only match in the middle of three nodes leaves the list reaching the freed node, and no longer reaching the third |
| LinkedDelete.HeadMatchHandled | src/iniparser.c:368-371 | deleting the only match at the head of three nodes leaves the list reading the other two and reaching no freed node |
| LinkedDelete.SectionDeleteDangles | src/iniparser.c:344-387 | sections Keep, Drop, Tail: deleting Drop leaves freed Drop linked after Keep |
| LinkedDelete.KeyDeleteDangles | src/iniparser.c:526-569 | pairs host, port, user: deleting port leaves freed port linked after host |

## Left out

- File I/O is left out: `fopen`, `fgets`, `fprintf`, `fclose`, `rename` and the errno values they return. `Reader.Read` takes the file's lines, and `Writer.Save` returns the text and the temporary path instead of writing them. The atomicity of the rename belongs to the filesystem.
- `Reader.SplitLines` does not model the 1024-byte `fgets` buffer. The C silently splits a longer line into pieces.
- The end-of-file path is left out. After the last line that ends with a newline, `feof` is still false, so the loop runs once more; `fgets` then returns NULL and the loop leaves through the error path with `err = errno` (lines 83-92), which frees the configuration and hands back none (lines 182-193). Every file `ini_cfg_save` writes ends with a newline or is empty, so the C as written returns no configuration for any file it saved. The model reads every line and stops.
- RoundTrip.SaveThenRead: it holds for the model's read, `Reader.ReadDoc`, which leaves out the end-of-file path above. It does not hold for the C as written, which returns no configuration for a saved file.
- Allocation failures are left out: allocation is assumed to succeed. The `ini_cfg_alloc*` helpers are not part of this model.
- Memory release is left out: `ini_cfg_free_config`, `ini_cfg_free_section`, `ini_cfg_free_keyvalue` and `ini_cfg_free_sections`. The model's memory is garbage-collected. Only `LinkedDelete` records freed nodes, to show the deletion bug.
- NULL pointer arguments are left out. Dafny references here are non-null, except the configuration `Writer.Save` takes. So the C's `EINVAL` for a NULL config, section or out-pointer appears only where a string is empty, or where that configuration is null.
- Character classes are the C locale's, written out as ASCII predicates. Other locales are left out.
- Bytes after a NUL are left out. Strings are `CString`s, which contain no NUL. The C's string functions would stop at the first NUL.
- IniConfig.Config.FindSections: with no match, the C returns success without writing its out-parameters; the model returns no sections and a count of 0.
- IniConfig.Config.FindSections: the C count is a `uint32_t`; the model's count is unbounded, so wrap-around past 2^32 sections is not modelled.
- IniConfig.Config.AddSection: the tail walk of the C (lines 225-238) is modelled as an append to the sequence of sections, which links at the same place.
- IniConfig.Section.AddKey: the tail walk of the C (lines 455-468) is modelled as an append to the sequence of pairs.
- IniConfig.Section.FindKey: returns the position of the first matching pair, not a pointer to the `KEYVALUE_INI` node.
- IniConfig.Config.DeleteSections and IniConfig.Section.DeleteKey model the evidently intended deletion, with every match unlinked (see Findings). The as-written relinking is modelled in `LinkedDelete`.
- LinkedDelete.UnlinkFrom: both walks are bounded by a fuel of one step per node, so a cyclic list is not modelled.

## Findings

| source | as written | input that shows it | evidently intended | confidence | as-written member | corrected member |
|---|---|---|---|---|---|---|
| src/iniparser.c:357-382 | `ini_cfg_delete_sections` relinks only the list head. A match further down is freed, but its predecessor still points at it, and the nodes after it are cut off. | sections `Keep`, `Drop`, `Tail`; delete `Drop` | every section named `Drop` is unlinked, leaving `Keep`, `Tail` | not executed | LinkedDelete.SectionDeleteDangles | IniConfig.Config.DeleteSections |
| src/iniparser.c:539-566 | `ini_cfg_delete_key` relinks only the list head. A matching pair further down is freed, but its predecessor still points at it, and the pairs after it are cut off. | pairs `host`, `port`, `user`; delete `port` | the pair `port` is unlinked, leaving `host`, `user` | not executed | LinkedDelete.KeyDeleteDangles | IniConfig.Section.DeleteKey |
