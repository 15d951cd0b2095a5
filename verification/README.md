# A verified model of the acx contact store

The program keeps contacts in a plain list and surrounds the list with fast structures: two in-memory index
maps, a text index and a binary index on disk coupled to the data by a digest, a key-value engine with
secondary keys. Around it stand the formats that carry contacts (JSON, JSONL, CSV), the threaded import and
report, and line tools. This project models those parts and proves that the fast structures agree with the
plain list, over whole runs, over every schedule and over crashes, and that each format is undone by its reader
exactly where it is.

A Dafny `char` stands for one byte of a C++ string. Random ids, times, the outcome of a write, the order in
which an unordered map is listed and the order that a sort gives to equal keys are parameters, so every theorem
holds for all of them. Code that updates state step by step is a class or a method with loops, each proved
against a function; the theorems are about those functions.

How the modules build on one another:

* `Widths`, `Text`, `Json`, `JsonParser`, `JsonGrammar`, `JsonStandard`, `JsonRoundTrip`, `JsonLength`, `Jsonl`,
  `Model`: strings, the JSON printer and parser, the grammar that the parser accepts and the standard that the
  printer keeps, JSON lines, contacts as JSON.
* `Validation`, `Book`, `BookInvariant`, `BookEffects`, `EditExact`, `ContactBooks`, `Merge`, `MergeTwice`,
  `CsvImport`, `Reimport`: the indexed contact book and everything that changes it.
* `TextIndex`, `DiskIndex`, `Store`, `FastSearch`, `StoreRuns`, `CrashSafety`, `CrashSearch`, `Storages`,
  `FileHash`: the files on disk, the search on them, both after any run of calls, and what a crash leaves.
* `WorkQueue`, `ParallelImport`, `ParallelTiming`, `ParallelBook`, `Report`: the queue with its condition
  variable, for any program that the workers run, and the two programs that run on it.
* `Csv`, `CsvGrammar`, `CsvRoundTrip`: the RFC 4180 parser and the exporter.
* `Bits`, `Sha256`, `Sha256Bits`, `Sha256Constants`, `Hmac`, `Reservoir`: arithmetic and bit-level code.
* `Rocks`, `RocksEngine`, `Diff`, `LineFilter`, `RecordFiles`, `Normalize`: the key-value engine and the tools over
  files.
* `Samples`: contacts that every check accepts, for the books and files on which a property fails.

Where the code differs from what its documentation or its comments promise, the model follows the code and the
difference is a theorem:

* `DETERMINISM.md` promises that an export can be imported again without changing the data. For JSONL this holds
  exactly when each contact, without the control characters that the parser drops, is still taken for a duplicate
  (`ReimportSame`). It fails for a contact with an empty id, and in a book of printable texts for no other
  (`ReimportClean`); it also fails when control characters change both keys of a contact (`ReimportGrows`). For CSV
  it never holds: the exporter ends the file with a line break, and its own parser then reads one row more and
  rejects the file (`ExportNeverReimports`). Without that line break the rows are read back exactly when no field
  has a bare carriage return, and they leave a book as it was exactly when it rejects each of them (`CsvReimport`).
  An exactly indexed book rejects its own contact exactly when the contact has an id or could not be added anyway
  (`CsvReimportOwn`); a valid one without an id is added again (`CsvReimportGrows`).
* The duplicate check takes an empty id for "skip nobody", so rows with empty ids are imported twice and the
  index loses the first (`EmptyIdsBreakIndex`, `ImportRowExact`).
* The check of an edit compares ids, and a JSONL import admits an id twice, so an edit can take the address of
  another contact of the same id; the indexes stay exact exactly when no key that is set belongs to another contact
  (`EditKeepsExact`, `RepeatedIdBreaks`).
* Merging a file twice is merging it once under Skip (`SkipTwice`), but not under the other strategies: under
  PreferNewer the time of creation is never updated, so a newer version is merged again each time
  (`NewerNeverSettles`, `NewerSample`), and under PreferExisting a later contact of the file can take over the
  address of an earlier one (`ExistingTakesOver`, `TakeoverSample`). `TwiceIsOnce` and `NewerTwiceIsOnce` say
  exactly when it is.
* A control character is printed as a `u` escape, as RFC 8259 demands (`PrintsJson`), and the parser drops every such
  escape (`ReadsString`, `RoundTripLoses`), so values survive exactly when they have none (`RoundTrip`,
  `SaveThenLoadExactly`). Every other text of the standard is read as it should be (`ReadsAnyText`).
* `normalize` prints a raw control character as such an escape at its first pass and loses it at the second, so
  normalizing twice is normalizing once exactly when the normal form of every record is free of them
  (`NormalizeTwice`, `SecondPassLoses`).
* The parallel import appends to the contacts and leaves the index maps alone (`IndexNotExtended`): the duplicate
  checks find none of the imported contacts (`ImportHidden`, `HiddenSample`), and saving and loading brings back the
  same incomplete maps, because their digest matches (`StaysHidden`).
* A save renames the meta file of the binary index before it writes the index itself. Stopped in between, it leaves
  files on which the fast search reads the new data at an old offset; at every other moment the search is right or
  finds nothing (`StoppedSearch`, `WrongContact`, `WrongSample`).
* Which of two clashing lines the parallel import takes can depend on the schedule: never with one worker
  (`OneWorker`), with two exactly when a line held back lets in another that shares a key with it (`TwoWorkers`),
  and with three or more exactly when two eligible lines share a key (`ThreeWorkers`). There is a file on which two
  workers do not show and three do (`ThirdWorkerFile`).
* The fallback HMAC replaces a long key by the text of its digest, so it is the HMAC of RFC 2104 for keys of at
  most one block and for no other key block (`KeyBlocksAgree`).
* The key-value engine does not check that an added id is new, nor that an edit takes no key of another contact,
  and it indexes a number under a key that its record need not read back with (`AddKeeps`, `EditKeeps`,
  `NumberChangesKey`).

## Model

| member | source | states |
|---|---|---|
| JsonRoundTrip.ParseDump | src/jsonl.cpp:29-156 | printing any double-free value at any indent and level, with any text after it, and parsing gives the value without its lossy control characters, and leaves exactly the text after it |
| JsonRoundTrip.RoundTrip | src/jsonl.cpp:11-156 | parse(dump(v, indent)) is v, with the whole text consumed, if and only if no string or key of v has a control character other than line feed, carriage return or tab |
| JsonRoundTrip.RoundTripLoses | src/jsonl.cpp:20-22 | a concrete value that does not come back: its control character is dropped |
| JsonRoundTrip.StripIsClean | src/jsonl.cpp:86-89 | the value that comes back has no lossy character anywhere |
| JsonRoundTrip.ParseOrdered | src/jsonl.cpp:121-139 | every object the parser builds is ordered by key without repetition, whatever order and repetitions the text has |
| JsonRoundTrip.DumpOneLine | src/jsonl.cpp:29-63 | a value printed without indentation holds no line feed |
| JsonGrammar.ReadsTree | src/jsonl.cpp:69-153 | whatever the derivation, with any white space, escapes, order and repetition of members, its text is read up to its end and no further, and gives what its parts give |
| JsonGrammar.ParserIsGrammar | src/jsonl.cpp:69-153 | the parser reads a value and leaves a rest if and only if the text is white space and a derivation of the value in front of the rest; a string that goes on to the end of the text is read to the end |
| JsonGrammar.ReadsString | src/jsonl.cpp:69-97 | a string is read up to its closing quote, each piece of it giving its character, and a `u` escape with its four characters nothing |
| JsonGrammar.FindLast | src/jsonl.cpp:121-139 | of several members with one key the last one written counts |
| JsonStandard.ReadsSpelling | src/jsonl.cpp:69-97 | every spelling of a string by section 7 of RFC 8259 without `u` escapes, each character by itself or as one of the eight two-character escapes, is read as the string, and what follows its quote is left |
| JsonStandard.ReadsAnyText | src/jsonl.cpp:69-153 | every text that RFC 8259 gives for a value, with no `u` escape and only numbers that a double can represent, is read as that value, whatever the white space and the order of members |
| JsonStandard.PrintsString | src/jsonl.cpp:11-27 | a printed string is a spelling of it by section 7 of RFC 8259, and what the parser loses of it are the characters written by number |
| JsonStandard.PrintsJson | src/jsonl.cpp:29-63 | every printed value is a text of RFC 8259 for that value |
| Json.InsertSorted | src/jsonl.cpp:123-132 | inserting a member keeps an object ordered |
| Json.FindInsert | src/jsonl.cpp:123-132 | after an insertion the key gives the new value and every other key what it gave before |
| JsonParser.ReadString | src/jsonl.cpp:69-97 | the loop over a string literal computes the parser specification, and leaves the same rest |
| JsonParser.ReadNumber | src/jsonl.cpp:99-104 | the number loop takes the same lexeme as the specification and fails on the same texts, those out of the range of a double included |
| JsonParser.ReadValue | src/jsonl.cpp:141-153 | the cursor-style parser agrees with the specification on every text, including failures, and terminates because the rest shrinks |
| JsonParser.ReadArray | src/jsonl.cpp:106-119 | the same for arrays |
| JsonParser.ReadObject | src/jsonl.cpp:121-139 | the same for objects, a repeated key keeping its last value |
| Jsonl.ReadJsonl | src/jsonl.cpp:158-171 | the line loop computes the line-by-line parse and skips empty lines |
| Jsonl.WriteJsonl | src/jsonl.cpp:173-177 | the output loop prints every value on a line of its own |
| Jsonl.ReadBack | src/jsonl.cpp:158-177 | printed lines parse to the stripped values, one for each |
| Jsonl.ReadBackExactly | src/jsonl.cpp:158-177 | they parse to the values themselves if and only if all of them are clean |
| Jsonl.LineByLine | src/jsonl.cpp:158-171 | an empty line is passed over, a line that does not parse is an exception, and any other gives its value in front of those after it |
| Model.HistoryToJson | src/model.cpp:25-26 | the loop over the history converts every entry in order |
| Model.HistoryFromJson | src/model.cpp:47-49 | the loop reads every entry in order and fails at the first bad one |
| Model.ContactRoundTrip | src/model.cpp:24-51 | from_json(to_json(c)) is c for every contact |
| Model.LineRoundTrip | src/model.cpp:24-51 | a contact survives being printed on a line and parsed if and only if it is clean, and its line is never empty nor broken |
| Model.ReadStripped | src/model.cpp:24-51 | the line of any contact reads back as the contact without its lossy control characters |
| Model.StrippedSame | src/model.cpp:24-51 | that is the contact itself if and only if it is clean |
| Model.Members | src/model.cpp:24-38 | the members under which the fields of a contact stand |
| Model.EntryIs | src/model.cpp:13-22 | a value is taken for a history entry if and only if it is an object with the three members as texts, whatever others it has |
| Model.ContactIs | src/model.cpp:39-51 | a value is taken for a contact if and only if it is an object with the six members as texts and the history as a list of entries, whatever others it has |
| Model.ReadsAnyRecord | src/model.cpp:39-51 | however the record of a contact is written in JSON, but for `u` escapes, it is read as the contact |
| Text.ToLowerIdempotent | src/validation.cpp:35-39 | lower-casing twice is lower-casing once |
| Text.SameLower | src/validation.cpp:35-39 | two texts are the same in lower case if and only if they differ in nothing but the case of letters |
| Text.LowerIs | src/validation.cpp:35-39 | a text in lower case is the text up to case, and has no capital letter |
| Text.Classes | src/validation.cpp:22-24 | white space, digits and letters by their codes |
| Text.LessAt | src/disk_index.cpp:35 | a text comes before another if and only if it is cut short of it or smaller at the first difference |
| Text.DecimalIs | src/index.cpp:80-85 | a position is printed in base 10 |
| Text.StoullIs | src/index.cpp:49-61 | white space and a sign before the digits and anything after them are accepted; a number of 2^64 or more is an exception, and a minus sign counts from 2^64 down |
| Text.StoullDecimal | src/index.cpp:49-81 | a position printed in decimal reads back as itself below 2^64 |
| Text.LessTransitive | src/disk_index.cpp:35 | string order is transitive |
| Text.LessTotal | src/disk_index.cpp:35 | string order is total |
| Validation.NormalizePhoneE164 | src/validation.cpp:71-89 | the digit-stripping loop computes the normal form of a number |
| Validation.NormalizePhoneIdempotent | src/validation.cpp:71-89 | normalizing a number twice is normalizing it once, for every default country |
| Validation.NumberIs | src/validation.cpp:71-89 | a plus sign in front is kept, fewer than ten digits are left alone, and a longer number gets the calling code of the default country, each country its own |
| Validation.ValidPhoneIs | src/validation.cpp:61-64 | a number is valid if and only if it has ten digits, or nine after a plus sign in front |
| Validation.ValidNameIs | src/validation.cpp:19-28 | a name is valid if and only if it has letters, white space, hyphens and apostrophes only, and letters at two places |
| Validation.ValidEmailIs | src/validation.cpp:30-33 | an address is valid if and only if it is a local part, an at sign, a domain, a dot and a top level of two letters or more, each of its characters |
| Validation.CheckName | src/validation.cpp:19-28 | the loop accepts exactly the names of letters, blanks, hyphens and apostrophes with two letters or more |
| Validation.ValidEmailChars | src/validation.cpp:30-33 | a valid address has no character but those of the pattern, so none that breaks an index line |
| ContactBooks.ContactBook.HasEmail | src/storage.cpp:97-105 | the lookup answers what the specification of the duplicate check answers |
| ContactBooks.ContactBook.HasPhone | src/storage.cpp:106-114 | the same for numbers |
| ContactBooks.ContactBook.AddContact | src/storage.cpp:116-157 | the new book, result, error and reported id are those of Book.Add, for every outcome of the write-out |
| ContactBooks.ContactBook.EditContact | src/storage.cpp:159-202 | the new book, result and error are those of Book.Edit, half-done edits included |
| ContactBooks.ContactBook.DeleteContact | src/storage.cpp:204-233 | the new book, result and error are those of Book.Delete |
| ContactBooks.ContactBook.ReindexFrom | src/storage.cpp:215-218 | the re-indexing loop binds every key from a position on to its new position, in both maps |
| ContactBooks.ContactBook.ImportJsonl | src/storage.cpp:364-375 | the import loop adds the rows that are no duplicates, and stops at a value that is no contact |
| BookInvariant.LookupExact | src/storage.cpp:97-114 | in an exactly indexed book the duplicate checks answer what a scan of all contacts by normalized key answers |
| BookInvariant.SetEmailIndexed | src/storage.cpp:172-174 | changing an address keeps the indexes exact if and only if the new key belongs to nobody else |
| BookInvariant.SetPhoneIndexed | src/storage.cpp:180-182 | the same for numbers |
| BookInvariant.RemoveIndexed | src/storage.cpp:211-218 | erasing a contact and re-indexing the tail keeps both maps exact |
| BookInvariant.ImportRowExact | src/storage.cpp:368-374 | importing a row keeps the indexes exact if and only if its keys are new or it is skipped |
| BookInvariant.EmptyIdsBreakIndex | src/storage.cpp:97-105 | two rows with the same keys and empty ids are both imported and break the index |
| BookInvariant.AddKeeps | src/storage.cpp:116-157 | an add, accepted or rejected, keeps index soundness, and with a new id exactness |
| BookInvariant.EditKeeps | src/storage.cpp:159-202 | an edit, accepted, rejected or stopped half-way, keeps both |
| EditExact.EditKeepsExact | src/storage.cpp:159-202 | whatever the ids, an edit of an exactly indexed book keeps the indexes exact if and only if each key that it sets belongs to no contact but the edited one |
| EditExact.RepeatedIdEdit | src/storage.cpp:171-174 | of two contacts of one id the first is given the address of the second, and the maps are no longer exact |
| EditExact.RepeatedIdBreaks | src/storage.cpp:171-174 | two such contacts |
| BookInvariant.DeleteKeeps | src/storage.cpp:204-233 | a deletion keeps both |
| BookInvariant.ImportKeeps | src/storage.cpp:364-375 | an import keeps both |
| BookInvariant.RunSound | src/storage.cpp:97-375 | no run of operations leaves an index entry that points at no contact or at one with another key, whatever the ids |
| BookInvariant.RunConsistent | src/storage.cpp:97-375 | after every run with fresh ids, rejected calls included, both maps are exactly key -> position with as many entries as contacts, and no two contacts share a key |
| BookInvariant.AddThenDelete | src/storage.cpp:116-233 | deleting a contact just added gives the book back, maps included |
| BookInvariant.EditEffect | src/storage.cpp:159-202 | a successful edit changes the one contact with the id, in the fields given, and adds one history entry |
| BookInvariant.DeleteEffect | src/storage.cpp:204-233 | a deletion takes out exactly the contact with the id, or fails if and only if there is none |
| BookEffects.ExistsIs | src/storage.cpp:97-114 | in an exactly indexed book the duplicate checks find exactly the other contacts of the same address up to case, and of the same number in its normal form |
| BookEffects.AddEffect | src/storage.cpp:116-157 | an add is rejected with the first error that applies and changes nothing; accepted, it appends one contact with the name and note given, the address up to case and in lower case, the number in normal form, the id, the time and one "created" entry by the user, and reports the id once it is written |
| BookEffects.EditEffect | src/storage.cpp:159-202 | an edit fails when nobody has the id, else with the first error that applies; without one the first contact with the id gets what is given and one "edited" entry by the user, and no other is changed |
| BookEffects.DeleteFirst | src/storage.cpp:204-233 | a deletion takes out the first contact with the id, whatever the ids, or fails when there is none |
| BookEffects.RowEffect | src/storage.cpp:364-375 | a row of an import is appended as it is, unless its address, up to case, or its number is taken |
| ContactBooks.RowsAre | src/storage.cpp:364-375 | the rows reached are the values before the first that is no contact |
| Merge.ReadContacts | src/merge.cpp:8-20 | the loop over the incoming text gives the contacts among its lines, in order |
| Merge.MergeContact | src/merge.cpp:51-74 | one incoming contact changes the book as the strategy's specification says |
| Merge.MergeInto | src/merge.cpp:46-78 | the merge loop computes the fold of that over all incoming contacts |
| Merge.MergeOneIs | src/merge.cpp:51-74 | an incoming contact is added when nobody has its address, up to case, or its number; else the contact that has is edited in all its fields when the strategy prefers the newer and it is newer, in its empty note when it prefers the existing, and is left alone otherwise |
| Merge.MergeKeeps | src/merge.cpp:46-78 | every merge keeps the index invariant and loses no id |
| Merge.SkipGrows | src/merge.cpp:72-74 | Skip leaves the existing contacts as they are, as a prefix of the result |
| Merge.SkipTwice | src/merge.cpp:46-78 | merging a file twice under Skip equals merging it once, whatever ids and times are drawn |
| MergeTwice.MergeSame | src/merge.cpp:46-78 | a merge changes nothing if every incoming contact has nothing to do, and only then, unless an edit is refused half-way |
| MergeTwice.TwiceIsOnce | src/merge.cpp:46-78 | under Skip and PreferExisting merging a file twice equals merging it once if and only if the first merge leaves each of its contacts nothing to do |
| MergeTwice.NewerTwiceIsOnce | src/merge.cpp:61-65 | under PreferNewer the same, as long as no contact of the file would be refused half-way |
| MergeTwice.NewerNeverSettles | src/merge.cpp:61-65 | a newer version of a contact is merged again at every merge, and the history grows |
| MergeTwice.NewerSample | src/merge.cpp:61-65 | a book and a contact for which it is |
| MergeTwice.HalfTakenBack | src/merge.cpp:61-65 | the guard is needed: two newer contacts whose edits are refused half-way take back each other's name, so a second merge changes nothing although it edits |
| MergeTwice.ExistingTakesOver | src/merge.cpp:66-71 | under PreferExisting a second merge can change the book: a contact added at the first one has taken the address of an earlier contact of the file |
| MergeTwice.TakeoverSample | src/merge.cpp:66-71 | three such contacts |
| Merge.PreferExistingEnriches | src/merge.cpp:66-71 | PreferExisting changes an existing contact only by filling an empty note and adding to its history |
| Merge.PreferNewerChanges | src/merge.cpp:61-65 | PreferNewer leaves a contact alone unless some incoming contact is newer |
| Reimport.ReimportSame | src/storage.cpp:356-375 | importing a book's own JSONL export changes nothing if and only if each contact, as it reads back, is taken for a duplicate; for every soundly indexed book |
| Reimport.ReimportClean | src/storage.cpp:97-105 | for an exactly indexed book of printable texts that is: if and only if no contact has an empty id |
| Reimport.ReimportGrows | src/storage.cpp:364-375 | a book with an id for its one contact that grows when its own export is imported |
| Reimport.ImportBack | src/storage.cpp:356-375 | importing an export into a new book gives the exported book, index maps included, if and only if all its texts are clean |
| Reimport.ExportJsonl | src/storage.cpp:357-358 | the export loop prints the contacts' lines |
| CsvImport.ImportCsv | src/storage.cpp:655-672 | the import loop adds the rows of six fields or more after the header, and changes nothing when the text does not parse |
| CsvImport.LineAdds | src/storage.cpp:660-668 | a row of six fields or more is an add with the second to the fifth of them; a shorter one is passed over |
| CsvImport.FieldColumns | src/storage.cpp:660-668 | those are the columns that the exported header names for the name, the address, the number and the note |
| CsvImport.CsvKeeps | src/storage.cpp:655-672 | whatever the file holds, the indexes stay exact |
| CsvImport.LinesSame | src/storage.cpp:655-672 | for every soundly indexed book and all rows, an import changes nothing if and only if every row is too short or rejected |
| CsvImport.CsvReimport | src/storage.cpp:252-270 | an export without its final line break is read back if and only if no field has a bare carriage return, and its rows change nothing in a book if and only if it rejects each of them |
| CsvImport.CsvReimportOwn | src/storage.cpp:252-270 | an exactly indexed book is left as it was by its own rows if and only if each of its contacts has an id, or is not valid, or the book is full |
| CsvImport.CsvReimportSame | src/storage.cpp:252-270 | so it is whenever all its contacts have ids of their own |
| CsvImport.CsvReimportGrows | src/storage.cpp:97-105 | a book with one contact without an id, to which its own row adds a copy |
| TextIndex.WriteMap | src/index.cpp:80-85 | the output loop writes the maps' lines |
| TextIndex.ReadIndex | src/index.cpp:30-63 | the reading loop computes the specification: hit, miss or exception |
| TextIndex.LineByLine | src/index.cpp:45-61 | a line under a tag binds its text up to the first equals sign to the number after it, in the map of the tag; a line without an equals sign or under no tag is passed over |
| TextIndex.IndexRoundTrip | src/index.cpp:26-87 | a saved index loads back as the same two maps if and only if no key has an equals sign or a line feed, for every listing order |
| TextIndex.StaleMisses | src/index.cpp:39-41 | an index written for other data is not used |
| DiskIndex.WriteBlock | src/disk_index.cpp:32-42 | the output loop writes the length-prefixed entries, cut at 65535 bytes |
| DiskIndex.BuildFile | src/disk_index.cpp:23-45 | the file is magic, version, counts and the two blocks, little-endian |
| DiskIndex.ReadBlock | src/disk_index.cpp:57-66 | the reading loop computes the block specification |
| DiskIndex.LoadFile | src/disk_index.cpp:68-79 | loading checks the magic and reads both blocks |
| DiskIndex.LoadedIs | src/disk_index.cpp:57-79 | whatever loads has the name in front and as many entries as its two counts say |
| DiskIndex.FromLeLe | src/disk_index.cpp:10-13 | the little-endian bytes of a number that fits read back as the number |
| DiskIndex.LeDigit | src/disk_index.cpp:10-13 | the bytes are the digits in base 256, the lowest first |
| DiskIndex.Layout | src/disk_index.cpp:23-45 | name, version and counts stand in the first twenty bytes, then the block of addresses, then that of numbers |
| DiskIndex.EntryReadsBack | src/disk_index.cpp:37-40 | an entry reads back as it was written if its key is shorter than the range of its two length bytes, and with the first 65535 characters of a longer key |
| DiskIndex.LoadBack | src/disk_index.cpp:15-79 | a written file loads back as its entries with keys cut at 65535 bytes |
| DiskIndex.LoadsWhole | src/disk_index.cpp:15-79 | lists with keys of at most 65535 bytes come back as they were |
| DiskIndex.BsearchKey | src/disk_index.cpp:81-89 | the lo/hi loop computes the binary search |
| DiskIndex.BsearchFinds | src/disk_index.cpp:81-89 | on sorted keys binary search finds an entry with the key if and only if there is one |
| DiskIndex.TruncSorted | src/disk_index.cpp:35-38 | cutting keys keeps them sorted |
| DiskIndex.LookupAnswers | src/disk_index.cpp:91-100 | a lookup in a written file answers with an offset given for the key, if and only if there is one, however ties were sorted |
| Store.Prepare | src/storage.cpp:42-56 | the save loop gives the data text and, for every contact, its two keys with the offset of its line |
| Store.Completed | src/storage.cpp:41-64 | a completed save leaves the four files with exactly their contents, whatever was there |
| Store.LoadNothing | src/storage.cpp:31-32 | without data the book loses its contacts and keeps its maps |
| Store.LoadData | src/storage.cpp:33-38 | data of contacts loads as those, with the maps of the index file if it carries the digest, else with maps made from them; an index that cannot be read is an exception |
| Store.SaveThenLoad | src/storage.cpp:30-64 | loading after a completed save gives the book back, maps included, from the index and without a rebuild |
| Store.SaveThenLoadExactly | src/storage.cpp:30-64 | for a book whose index maps are sound, complete or not, this holds if and only if all texts are clean and no index key has an equals sign or line feed |
| Store.DataParses | src/storage.cpp:30-36 | the data file of any contacts reads back as the contacts without their lossy control characters |
| Store.LoadGenerations | src/index.cpp:26-73 | data of one book with an index written for any other loads as the former: the index is right or is not used |
| Store.RebuildAgrees | src/index.cpp:66-70 | rebuilding the maps of an exactly indexed book gives the same maps |
| Store.KeysAreClean | src/storage.cpp:116-157 | the keys of validated contacts can be carried by the text index |
| FileHash.ShaOneLine | src/utils.cpp:75-120 | the digest used to couple the files is one line, so the theorems on files apply to it |
| FileHash.ShaIs | src/utils.cpp:75-120 | it is the SHA-256 digest of the bytes of the data, in 64 digits |
| FastSearch.SearchOne | src/storage.cpp:622-652 | the imperative search computes the specification of the fast search |
| FastSearch.SearchGuards | src/storage.cpp:624-640 | nothing is found when the search is off, there is no data, the meta file carries another digest, or neither address nor number is given |
| FastSearch.MetaIs | src/disk_index.cpp:48-55 | the meta file carries a digest if and only if it is its tag and the digest, with at most one line break after them |
| FastSearch.LineAtOffset | src/storage.cpp:641-646 | the line cut at a contact's offset is the contact's line |
| FastSearch.SearchAfterSave | src/storage.cpp:41-64 | after a completed save of any contacts, the search reads the line of a contact with the key, cut at 65535 bytes, and finds nothing if and only if there is none |
| FastSearch.SearchIsScan | src/storage.cpp:622-652 | after a completed save of an exactly indexed, clean book, the fast search is the linear scan of the contacts by normalized key |
| StoreRuns.RunCarried | src/storage.cpp:97-375 | every run of calls with printable inputs leaves contacts that the files can carry; addresses and numbers need no condition, as they are validated |
| StoreRuns.RunThenSave | src/storage.cpp:30-64 | after every run from the empty book with new ids and printable inputs, a completed save loads back as the book from its index, and the fast search is the scan of its contacts |
| CrashSafety.RunKeeps | src/utils.cpp:21-38 | over every run of saves, index writes and crashes between any two writes, the files on disk stay those of known books |
| CrashSafety.LoadAfterAnyRun | src/index.cpp:26-87 | after any such run a load gives the book whose data file was last put in place, with maps that agree with it |
| CrashSafety.StoppedSave | src/storage.cpp:57-64 | a save stopped between any two writes loads as the old book before the data file is renamed and as the new one afterwards, with exact maps |
| CrashSearch.CutShort | src/disk_index.cpp:57-79 | a binary index cut short at any byte does not load |
| CrashSearch.StoppedSearch | src/storage.cpp:57-64 | the fast search at each moment of a save over the files of an old book: the scan of the old book until the data file is renamed, nothing until the meta file is unless the digests are the same, the new data at an old offset at the moment after that, nothing while the binary file is written, and the scan of the new book at the end |
| CrashSearch.WrongContact | src/disk_index.cpp:15-46 | at that moment, when the first of two contacts has been dropped, the search for its address gives the second |
| CrashSearch.WrongSample | src/disk_index.cpp:15-46 | two such contacts |
| Storages.Storage.Save | src/storage.cpp:41-64 | the save method leaves the files that the plan of its steps leaves |
| Storages.Storage.Load | src/storage.cpp:30-39 | the load method leaves the book and the files of the specification |
| Storages.Storage.WriteAtomic | src/utils.cpp:21-38 | writing to a temporary and renaming puts the whole content in place |
| Storages.Storage.WriteIndex | src/index.cpp:75-87 | the index file holds the digest of the data and both maps |
| Storages.Storage.BuildDiskIndex | src/disk_index.cpp:15-46 | the meta file and the binary file hold what the specification says |
| WorkQueue.StepInv | src/cli.cpp:492-504 | every step of producer and workers keeps the queue invariant: what is queued is what was pushed and not taken, nobody leaves early, no task is with two workers |
| WorkQueue.NoDeadlock | src/cli.cpp:497-503 | in every reachable state that is not the end some thread can step, so no wake-up is lost |
| WorkQueue.StepProgress | src/cli.cpp:492-542 | every step but a spurious wake-up brings the run nearer to its end |
| WorkQueue.RunBounded | src/cli.cpp:492-542 | the length of every schedule is bounded by its work and its spurious wake-ups |
| WorkQueue.TerminalDrained | src/cli.cpp:540-541 | when all threads are through, every task has been taken and finished |
| WorkQueue.NoWorkers | src/cli.cpp:521-542 | without a worker the run ends with every line still queued |
| WorkQueue.ScheduleBounded | src/cli.cpp:492-542 | from the start, every schedule has at most so many steps for each line and worker, and two for each spurious wake-up |
| Report.ReportBounded | src/cli.cpp:521-595 | for the report: six steps for a line and two for a worker |
| Report.Sequential | src/cli.cpp:200-214 | the report loop counts the lines and collects the addresses |
| Report.CountIsCard | src/cli.cpp:204-205 | the count is the number of lines that are not empty, whether they parse or not |
| Report.EmailsAre | src/cli.cpp:206-212 | the addresses are exactly those found in such lines |
| Report.ThreadedIsSequential | src/cli.cpp:521-595 | for every schedule and at least one worker the threaded report ends with the counts and addresses of the sequential loop, each line handled exactly once |
| RecordFiles.EmailOfLine | src/cli.cpp:207-211 | the address found in a contact's line is the contact's, without the control characters that the parser drops |
| RecordFiles.ReportOfBook | src/cli.cpp:200-214 | the report on the file of a book counts its contacts and finds exactly their addresses |
| RecordFiles.ThreadedOfBook | src/cli.cpp:521-595 | so does the threaded report, for every schedule and at least one worker |
| ParallelImport.SplitLine | src/utils.cpp:122-126 | the splitting loop computes the parts |
| ParallelImport.SplitJoin | src/utils.cpp:122-126 | the parts joined by the separator are the line, and none of them holds the separator |
| ParallelImport.SplitBack | src/utils.cpp:122-126 | parts without the separator come back from their join |
| ParallelImport.Produce | src/storage.cpp:582-591 | the producer makes tasks of the lines after a CSV header, up to the limit if there is one |
| ParallelImport.TasksAre | src/storage.cpp:582-591 | the tasks are the lines of the file from the second on for CSV and from the first on for JSONL, in order, and as many as the limit if there is one |
| ParallelImport.CandidateIs | src/storage.cpp:501-512 | a line is taken for a contact if and only if it is no longer than the limit, gives the contact, by its six fields between commas or its JSON form, and the contact is valid |
| ParallelImport.StepImport | src/storage.cpp:536-580 | every step of every schedule keeps the import invariant: chosen lines clash with nothing, none is lost, and no valid line is dropped without a clash |
| ParallelImport.EverySchedule | src/storage.cpp:514-604 | under every schedule and any number of workers but none, the appended contacts stand for distinct valid lines in increasing order, clash with nothing, and every valid line left out clashes with the book or with an appended one |
| ParallelImport.AppendedAreNew | src/storage.cpp:558-565 | the appended contacts have pairwise distinct addresses and numbers, none of them among the starting keys, which ParallelBook.ConfigOf takes from a book |
| ParallelImport.ImportBounded | src/storage.cpp:536-598 | every schedule of an import ends: six steps for a line and two for a worker, spurious wake-ups aside |
| ParallelImport.SequentialIsKept | src/storage.cpp:556-570 | the pass that goes by the keys seen keeps, in order, the lines that clash with no kept line before them nor with the starting book |
| ParallelImport.SequentialIsEligible | src/storage.cpp:536-604 | when no two eligible lines share a key, the sequential pass keeps exactly the eligible ones |
| ParallelImport.ScheduleUnobservable | src/storage.cpp:536-604 | when no two eligible lines share a key, every schedule appends what the sequential pass keeps, in the same order |
| ParallelImport.StandsExactly | src/storage.cpp:546-551 | a line that gives its id and time is appended as it stands |
| ParallelImport.IndexNotExtended | src/storage.cpp:602-604 | after the parallel import the index maps are exact if and only if nothing was appended |
| ParallelTiming.Complete | src/storage.cpp:582-598 | every run can be carried on to its end |
| ParallelTiming.SomeSchedule | src/storage.cpp:536-604 | for every file, a line kept by a pass without some other lines is appended under some schedule, given one worker more than those lines |
| ParallelTiming.OneWorker | src/storage.cpp:515-604 | with one worker every schedule appends what the sequential pass keeps, in the same order |
| ParallelTiming.CalmIsSequential | src/storage.cpp:536-604 | so does every schedule of two workers when no kept line, held back, lets in another that shares a key with it |
| ParallelTiming.TwoWorkers | src/storage.cpp:536-604 | with two workers the lines appended are independent of the schedule if and only if that holds |
| ParallelTiming.ThreeWorkers | src/storage.cpp:536-604 | with three workers or more, for every file, they are independent of the schedule if and only if no two eligible lines share a key |
| ParallelTiming.ThirdWorkerShows | src/storage.cpp:515-604 | the last two conditions differ: for a line that shares its address with one line and its number with another, two workers determine the result and three do not |
| ParallelTiming.ThirdWorkerFile | src/storage.cpp:515-604 | a file of three printed contacts that is like this |
| ParallelBook.SeenKeys | src/storage.cpp:522-527 | the loop over the sorted contacts collects the keys of the book's contacts |
| ParallelBook.ImportKeepsDistinct | src/storage.cpp:514-604 | under every schedule of the import of a file into a book, the contacts afterwards have pairwise distinct addresses and numbers if and only if they had before |
| ParallelBook.NoneLost | src/storage.cpp:558-570 | under every schedule the book then has a contact with the address or the number of every valid contact that the file gives at a position that is imported |
| ParallelBook.AppendedGiven | src/storage.cpp:541-570 | every appended contact is a valid one that the file gives at a position of its own, in increasing order, with a new id or time only where the file has none |
| ParallelBook.AppendsEligible | src/storage.cpp:558-570 | something is appended if and only if the file gives, at such a position, a valid contact that shares no key with the book |
| ParallelBook.ImportHidden | src/storage.cpp:602-604 | but for an exactly indexed book the maps stay exact if and only if the file gives no such contact, and the duplicate checks find no appended contact |
| ParallelBook.HiddenLine | src/storage.cpp:602-604 | the printed line of any clean and valid contact, imported into an empty book, is appended and leaves inexact maps |
| ParallelBook.HiddenRow | src/storage.cpp:501-512 | so are the six fields of a valid contact, none with a comma, under any header of a CSV file: the contact appended has exactly those fields |
| ParallelBook.HiddenSample | src/storage.cpp:602-604 | such a contact and such an import |
| ParallelBook.StaysHidden | src/storage.cpp:30-64 | a save and a load bring the same incomplete maps back if and only if texts and keys can be stored |
| Csv.ParseRfc4180 | src/csv.cpp:7-41 | the parser loop computes the rows of the state machine, and accepts if and only if they have one width |
| Csv.Escape | src/storage.cpp:252-258 | the quoting code computes the escaped field |
| Csv.DoubleInPlace | src/storage.cpp:256 | the insertion loop doubles every quote |
| CsvGrammar.ReadsTable | src/csv.cpp:7-41 | every text of a table, with any parts of its fields quoted and its lines broken by LF, CRLF or CR, is read as the table, and accepted if and only if it has one width |
| CsvGrammar.ExportsBare | src/storage.cpp:252-258 | a field is quoted if and only if it has a comma, a quote or a line feed, and then as a whole |
| CsvRoundTrip.TableRoundTrip | src/csv.cpp:7-41 | a table of escaped fields joined by commas and LF or CRLF parses back to the table if and only if no field has an unquoted carriage return, and is accepted if and only if it also has one width |
| CsvRoundTrip.FinalBreak | src/csv.cpp:34-39 | a text whose last break ends a row gives one row with one empty field more |
| CsvRoundTrip.TableWithFinalBreak | src/csv.cpp:34-39 | a table with a final line break gives one row more, and is accepted if and only if its width is one |
| CsvRoundTrip.ExportCsv | src/storage.cpp:262-271 | the export loop writes the header and the rows |
| CsvRoundTrip.Columns | src/storage.cpp:262-271 | the fields of a row stand in the columns that the header names |
| CsvRoundTrip.ExportNeverReimports | src/storage.cpp:252-271 | the parser rejects every file the exporter writes |
| Bits.ShiftedOrIs | src/utils.cpp:96 | shifting and joining four bytes gives the big-endian word |
| Bits.OrDisjoint | src/utils.cpp:96 | joining numbers without a common bit is adding them |
| Bits.AddReverse | src/utils.cpp:101 | the order of the four summands of a schedule word does not matter modulo 2^32 |
| Sha256.PadMessage | src/utils.cpp:86-90 | the padding loops compute the padding of section 5.1.1 of FIPS 180-4 |
| Sha256Bits.PadIs | src/utils.cpp:86-90 | the padding is the message, one byte with its highest bit set, zeros, and eight bytes for the length: a whole number of blocks |
| Sha256Bits.LengthField | src/utils.cpp:90 | those eight bytes are the length in bits modulo 2^64, the highest byte first |
| Sha256.PaddingMinimal | src/utils.cpp:89 | no shorter run of zeros fills the last block |
| Sha256.PaddingInjective | src/utils.cpp:86-90 | different messages have different paddings, whatever their lengths |
| Sha256.ExpandWords | src/utils.cpp:98-102 | the in-place loop of the first implementation computes the message schedule of section 6.2.2 |
| Sha256.ExpandSchedule | include/acx/sha256.hpp:50 | so does that of the second |
| Sha256.RunRounds | src/utils.cpp:103-112 | the loop over eight variables computes 64 rounds |
| Sha256.Sha256Hex | src/utils.cpp:75-120 | the first implementation prints the digest of the recursive specification for every input |
| Sha256.HashStream | include/acx/sha256.hpp:28-62 | so does the second, hence both agree |
| Sha256.PrintedFilled | src/utils.cpp:115-119 | filling the printed number to eight places gives its eight digits |
| Sha256.DigestShape | src/utils.cpp:115-119 | a printed digest is 64 hexadecimal digits |
| Sha256Constants.FirstPrimes | src/utils.cpp:76-85 | the 64 numbers listed are exactly the primes below 312 |
| Sha256Constants.PrimesIncrease | src/utils.cpp:76-85 | and stand in increasing order |
| Sha256Constants.RoundConstants | src/utils.cpp:76-85 | each round constant is the first 32 bits of the fractional part of the cube root of its prime, the first 64 primes in order |
| Sha256Constants.InitialValue | src/utils.cpp:91-92 | each initial word is the first 32 bits of the fractional part of the square root of its prime, the first eight |
| Sha256Bits.Sigmas | src/utils.cpp:98-108 | each bit of the four sums is that of the bits so many places above it, around the word or up to its end, with the distances of section 4.1.2 of FIPS 180-4 |
| Sha256Bits.Choices | src/utils.cpp:105-109 | Ch takes each bit from the second word or the third as the first says, Maj the one that two of them have |
| Hmac.HexToBytes | src/hmac.cpp:27-34 | the loop reads every pair of characters |
| Hmac.ScanEither | src/hmac.cpp:27-34 | hexadecimal digits are read in either case |
| Hmac.DigitsToBytes | src/hmac.cpp:27-34 | hexadecimal digits of a number read back as its bytes |
| Hmac.HexInverse | src/hmac.cpp:43-45 | reading a printed digest gives the 32 bytes of the digest |
| Hmac.HmacSha256Hex | src/hmac.cpp:35-50 | the code computes the keyed hash over its key block |
| Hmac.KeyBlocksAgree | src/hmac.cpp:37-39 | its key block is that of section 2 of RFC 2104 if and only if the key has at most 64 bytes |
| Hmac.FallbackIsHmac | src/hmac.cpp:35-50 | it is the HMAC of RFC 2104 for every message and every such key |
| Hmac.HmacIs | src/hmac.cpp:40-49 | that is: the digest over the key block combined byte by byte with 0x5c and the digest over the key block combined with 0x36 and the message, the key block being the key filled with zeros to 64 bytes |
| Sha256Bits.ByteXor | src/hmac.cpp:41 | combining two bytes gives each bit in which they differ |
| Hmac.FallbackLongKey | src/hmac.cpp:38 | for a longer key it is that HMAC under the 64 digits of the key's digest |
| Reservoir.Sample | src/cli.cpp:427-439 | the sampling loop computes the reservoir for the numbers drawn |
| Reservoir.SampleIsDistinct | src/cli.cpp:427-439 | every run holds min(n, N) lines from as many different positions |
| Reservoir.ChoicesAre | src/cli.cpp:434-435 | the choices counted are exactly the sequences the draws can give |
| Reservoir.EqualChance | src/cli.cpp:427-439 | over all choices, (number keeping line p) * N = n * (number of choices), for every n, N >= n and p |
| Reservoir.EverySample | src/cli.cpp:427-439 | every set of n positions is the sample for exactly (N - n)! choices, so all samples are equally likely |
| Reservoir.ChoicesCount | src/cli.cpp:434 | the number of choices is N! / n! |
| RocksEngine.Engine.AddContact | src/storage_rocksdb.cpp:43-62 | the new database and the fault are those of the specification |
| RocksEngine.Engine.EditContact | src/storage_rocksdb.cpp:64-85 | the same for edit |
| RocksEngine.Engine.RemoveContact | src/storage_rocksdb.cpp:87-98 | the same for remove |
| RocksEngine.AddFaultIs | src/storage_rocksdb.cpp:43-59 | the error of an add is the first that applies: not valid, another contact of the address up to case, another of the number, not written |
| RocksEngine.EditFaultIs | src/storage_rocksdb.cpp:64-84 | the error of an edit: nobody has the id, the contact that results is not valid, not written; the keys of others are not looked at |
| RocksEngine.RemoveFaultIs | src/storage_rocksdb.cpp:87-98 | the error of a removal: nobody has the id, or not written |
| RocksEngine.AddFields | src/storage_rocksdb.cpp:43-57 | what an accepted add leaves, as the records read back |
| RocksEngine.EditedFields | src/storage_rocksdb.cpp:69-80 | what an accepted edit leaves: the fields given, and those not given as they were |
| Rocks.AddEffect | src/storage_rocksdb.cpp:53-57 | what the add batch does to each of the three key spaces |
| Rocks.AddKeys | src/storage_rocksdb.cpp:53-57 | the three keys under which a contact is put, and what stands there |
| Rocks.EditEffect | src/storage_rocksdb.cpp:76-83 | what the edit batch does to each of them, in its order |
| Rocks.PutThenDelete | src/storage_rocksdb.cpp:78-82 | with the deletes after the puts, a contact whose key is unchanged would lose its entry |
| Rocks.AddKeeps | src/storage_rocksdb.cpp:43-62 | an accepted add, whatever its text, keeps the secondary keys in exact correspondence with the contacts that the records read back as, if and only if its id is new and its number reads back with the same key |
| Rocks.EditKeeps | src/storage_rocksdb.cpp:64-85 | an edit keeps it if and only if neither new key belongs to another contact and the number reads back with the same key |
| Rocks.NumberChangesKey | src/storage_rocksdb.cpp:43-57 | valid numbers that do not read back with their key |
| Rocks.RemoveKeeps | src/storage_rocksdb.cpp:87-98 | a removal always keeps it |
| RocksEngine.StepKeeps | src/storage_rocksdb.cpp:43-98 | an operation, rejected or not, keeps the correspondence if and only if it is careful about ids, keys and numbers |
| RocksEngine.RunKeeps | src/storage_rocksdb.cpp:43-98 | every run of careful operations keeps it |
| RocksEngine.RunFromEmpty | src/storage_rocksdb.cpp:43-121 | after every careful run from a new database the correspondence holds, and a search by address or number is a scan of all contacts |
| RocksEngine.SearchByEmail | src/storage_rocksdb.cpp:108-114 | search by address gives the one contact that a scan of all records by normalized address gives, or nothing |
| RocksEngine.SearchByPhone | src/storage_rocksdb.cpp:115-121 | the same for numbers |
| RocksEngine.SearchName | src/storage_rocksdb.cpp:122-128 | seeking the prefix and stopping at the first key without it finds what a scan of all keys in order finds |
| RocksEngine.SearchByName | src/storage_rocksdb.cpp:122-128 | that is: in the order of their keys, the contacts whose name contains the text, of all that the records read back as |
| RocksEngine.ContainsIs | src/storage_rocksdb.cpp:122-128 | a name contains a text if and only if the text stands somewhere in it |
| RocksEngine.Search | src/storage_rocksdb.cpp:100-129 | the order of preference: id, address, number, name |
| Diff.BuildIndex | src/diff.cpp:44-48 | the loop builds the id map, the last contact of an id counting |
| Diff.IndexIs | src/diff.cpp:44-48 | an id of the map is that of a contact, and the contact there is the last of the id |
| Diff.DiffBooks | src/diff.cpp:50-79 | the loops over the sorted ids compute the difference |
| Diff.DiffLists | src/diff.cpp:58-75 | added, removed and changed hold exactly the ids only in the second, only in the first, and in both with a field that differs |
| Diff.DiffEntries | src/diff.cpp:64-73 | an entry gives the old and the new value of exactly the fields that differ |
| Diff.EntryFields | src/diff.cpp:62-73 | an id is listed as changed if and only if the name, the address, the number or the note differ, and its entry has the old and the new value of exactly those |
| Diff.DiffIncreasing | src/diff.cpp:52-58 | each list is in increasing order without repetition |
| Diff.DiffDisjoint | src/diff.cpp:58-64 | no id is in two of the lists |
| Diff.DiffPatches | src/diff.cpp:50-79 | applied to the first map the difference gives the second on the compared fields |
| Diff.DiffMirror | src/diff.cpp:50-79 | swapping the books swaps added and removed, and old and new |
| Diff.DiffEmpty | src/diff.cpp:50-79 | the difference is empty if and only if the maps agree on the compared fields |
| LineFilter.Dedupe | src/cli.cpp:289-308 | the loop writes the lines whose key is new, and those that do not parse; the lines kept and dropped are together those that are not empty |
| LineFilter.MergeFiles | src/cli.cpp:399-421 | merging files is filtering the lines of their concatenation |
| LineFilter.KeepsFirst | src/cli.cpp:296-305 | what is kept are the first lines of each key and all lines without one, in order |
| LineFilter.OtherLines | src/cli.cpp:297-305 | a line that does not parse is always kept, and one without an address unless the same line, or an address that reads like it, came before |
| RecordFiles.DedupeOfBook | src/cli.cpp:289-308 | deduplicating the file of a book gives the file of the contacts whose address no earlier one has |
| RecordFiles.MergeOfBooks | src/cli.cpp:399-421 | merging the files of two books whose contacts have addresses gives the file of the contacts of both whose address no earlier one has |
| LineFilter.DedupeTwice | src/cli.cpp:289-308 | deduplicating a file twice is deduplicating it once |
| LineFilter.MergeAssociative | src/cli.cpp:399-421 | merging in steps, in either grouping, is merging all files at once |
| Normalize.TrimText | src/cli.cpp:370-372 | the two cursors trim both ends |
| Normalize.ReadPhoneDigits | src/cli.cpp:374 | the loop keeps the digits and a leading plus sign |
| Normalize.TrimIs | src/cli.cpp:370-372 | trimming takes away the blanks at both ends, all of them and nothing else |
| Normalize.PhoneDigitsAre | src/cli.cpp:374 | the normal form of a number is its digits in order, after a plus sign if one stands before the first |
| Normalize.NormalStringIs | src/cli.cpp:383-391 | a name is trimmed, an address trimmed and put in lower case, of a number the digits are kept with a plus sign before them, and any other member is left alone |
| Normalize.NormalLineIs | src/cli.cpp:378-395 | a line that is no record stays as it is; the members of a record keep their keys and their order, and only texts are changed |
| Normalize.LowerTrimTwice | src/cli.cpp:370-373 | an address in normal form is left as it is |
| Normalize.PhoneDigitsTwice | src/cli.cpp:374 | a number in normal form is left as it is |
| Normalize.NormalizeFile | src/cli.cpp:376-397 | the loop rewrites the records line by line |
| Normalize.NormalLineTwice | src/cli.cpp:382-393 | normalizing a line twice is normalizing it once if and only if its normal form has no lossy control character; any other normal form gets shorter at the second pass |
| Normalize.NormalizeTwice | src/cli.cpp:376-397 | normalizing a file twice is normalizing it once if and only if that holds for every record |
| Normalize.SecondPassLoses | src/cli.cpp:382-393 | a line for which it does not |
| JsonLength.StripSize | src/jsonl.cpp:29-97 | a value read back prints no longer than before, and shorter if it had a lossy control character |
| JsonLength.DumpSize | src/jsonl.cpp:29-63 | the length of a value printed on one line |

## Left out

- Doubles in JSON: a number is carried as the text it was read from, and values with numbers are outside the round trips, because they print at stream precision.
- JSON escapes by number: what one stands for is said for characters of one byte; the parser drops every one.
- Character classes: those of the C locale.
- `std::sort` and unordered maps: their order among equals is a parameter, constrained only by what they guarantee.
- Cursors into a text: represented by the text that remains, so reading past the end is a failure here and not undefined behaviour.
- Aliasing of the book between threads: the parallel import works on its own shared state, and the book is what it appends to afterwards.
- File offsets and counts: numbers with the limits of the format stated where they matter, 2^64 for offsets and 2^32 for counts.
- CrashSafety.StoppedSave: assumes that the digests of the data texts involved do not collide.
- CrashSafety.LoadAfterAnyRun: makes the same assumption as a condition on the run, and says nothing of the binary index, which CrashSearch.StoppedSearch follows through one save.
- CrashSearch.StoppedSearch: for a save over files that an earlier save has completed, not over whole runs of stopped saves.
- MergeTwice.NewerTwiceIsOnce: leaves open the merges in which an edit is refused half-way; there a contact can have something to do and the merge still change nothing, as HalfTakenBack shows.
- FastSearch.SearchIsScan: for keys of at most 65535 bytes and fewer than 2^32 contacts; beyond them SearchAfterSave says what is found. The scan is by normalized key, as the index is; the substring search over all contacts is not part of this model.
- RocksEngine.StepKeeps: a record that does not parse is a fault instead of an exception.
- Normalize.NormalizeTwice: for files whose records hold no doubles, which print at stream precision.
- Normalize.NormalLineTwice: the same for a line.
- Storages.Storage.WriteAtomic: the write and the rename are carried out; a failed open, write or rename and the copying fallback are not modelled, nor is the returned flag. A write stopped half-way is the subject of CrashSafety.
- Storages.Storage.Save: so it always goes on to the index files and returns nothing.
- Storages.Storage.BuildDiskIndex: the same for the binary file.
- Merge.MergeInto: the save after the loop, whose result is the result of the merge; Store and Storages describe it.
- Hmac.HmacSha256Hex: the version without OpenSSL; keys and messages are sequences of bytes.
- Diff.DiffBooks: the lists, not their printing as JSON, and not the loading of the two files.
- The import loops of the key-value engine: repeated adds, as StepKeeps describes them.
- The import over CSV fields uses the add operation of the book, which makes its own ids and times.
- Dry runs return before the write-out, as the spliced code intends.
- The CSV and TSV branches of import_data and the repeated branches of export_data: text spliced in or not reachable.
- uuid formatting, clocks, backups, the audit log, the directory lock, policies, configuration: parameters or not modelled.
- OpenSSL, zstd, SQLite and libphonenumber: their behaviour lives in libraries.
- Argument parsing, help, doctor, selfcheck, metrics, redaction and the remaining commands of the command line.
