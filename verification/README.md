# Verified model of liblinphone's configuration store, tunnel manager and credential lookup

This project models three stateful parts of liblinphone's `coreapi` and proves what they
promise, for all inputs and over all runs.

**The configuration store** (`lpconfig.c`, with `xml2lpc.c`, `lpc2xml.c` and
`remote_provisioning.c` on top of it).

- `Store` is the store as a value: an ordered list of sections with header params, comments
  and entries. `Refinement` proves that, over any run of changes, it is a plain map, and when
  the `modified` flag can be relied on.
- `LineSyntax` says what a line means and proves that the last writer wins; `Printer` holds the
  two printed forms and their round trips, and `Expressible` what a file can express at all.
- `SectionList`, `LineBuffer` and `Config` are the objects: sections and lists changed in place,
  and the line parser that overwrites its buffer. Each method is tied to a function of the value.
- `Durability` is the save protocol on a file system that can crash between any two operations,
  with the recovery rule at load. A crash may leave any text in a file not flushed since its
  last write, and any operation may fail, which the code only logs. `Syncing` relates the
  `modified` flag to the file.
- `Codecs`, `Provisioning` and `Headers` are the integer, range and list codecs, the import and
  export of provisioning documents, and the numbered provisioning entries.
  `RemoteProvisioning` puts pruning, import and factory file together.

**The tunnel manager** (`TunnelManager.cc`, `linphone_tunnel.cc`). `Tunnel` is the state machine
over mode, target, actual state, network, detection and client, with its invariant, the
detection's outcome and the event queue under concurrent posters; `TunnelObject` is the object.
`TunnelServers` and `TunnelList` are the server list as text and the config list that the
manager's lists must follow.

**Credential lookup** (`authentication.c`): `Credentials`.

`Lists` and `CText` hold what all of them use: list operations, and C strings with the scanners
and formatters of the C library.

## Well-formedness

- A store is well formed (`Store.Wf`) when section names are unique, keys and comments are unique
  in their section, and no entry has an empty value. Every operation keeps this.
- A configuration is printable (`Printer.Printable`) when, besides, section names hold no white
  space and no `]`; keys no white space and no `=`, and do not start with `#` or `[`; values no
  line ending and no trailing blank; params are words, without `=` in the key and without `]`.
- Strings hold no NUL. A null value passed to a setter is the empty string.

## Results where a property does not hold outright

- A store is read back from the file it is written as if and only if it is printable
  (`Expressible.PrintableExactly`), and so for one value set (`Expressible.SetIsReadBackExactly`).
- A save survives every crash if and only if it begins with a flushed main file
  (`Durability.SaveIsSafeExactly`). The very first save, and a save made after a crash that fell
  between removing and renaming, are therefore not safe.
- Operations of a save that fail are only logged. When the rename works, the main file is
  complete if and only if no write failed. When the rename fails, a load gives what it gave
  before, or, when there is no main file, because there was none or because it was removed, what
  was written (`Durability.FailuresAreCommitted`). Over whole runs with crashes and failures, a
  load gives what was last put in place until a crash meets it unflushed, and the next crash
  leaves it alone if and only if the flush of its save worked (`Durability.RunsWithFailures`).
- Cleaning the servers resets the mirror iterator but not the detection flag; the manager's
  invariant is kept if and only if no detection runs (`Tunnel.Manager.CleanKeepsInvExactly`),
  and so for a rebuild of the lists (`TunnelServers.RefreshKeepsInvExactly`): mirrors added after
  the clean do not bring the iterator back from the end of the list. `Tunnel.CleanDuringDetection`
  is a run in which the next probe result meets the iterator there.
- A range is read back if and only if its minimum is not negative (`Codecs.RangeRoundTrip`).
- A list of comma-free strings is read back unless it is empty or the single empty string
  (`Codecs.StringListRoundTrip`).
- An added provisioning header is the last one read back if and only if the index after the first
  free one is free (`Headers.HeadersAfterAdd`); a header splits back into its name and value if and
  only if the name has no colon (`Headers.SplitUndoesAdd`).
- `modified` is not sound. After an entry is set, saved and cleaned, the value is gone and the
  flag is not set (`Refinement.CleanGoesUnmarked`). Over any run, unmarked means that every value
  is as of the last sync, at every moment, if and only if every entry clean that finds its entry,
  and every file read that has a value the store has not, meets a store marked already
  (`Refinement.FlagIsSoundExactly`).
- Nor does a sync that clears the flag always put the text in place: one lost write is enough
  (`Syncing.Target.LostWriteGoesUnmarked`). Unmarked means that the file a load reads is the
  store's, at every moment, if and only if no unmarked store changes and every sync that opened
  its file puts the whole text where a load looks (`Syncing.Target.FlagIsInFileExactly`).
- The params of a section header are scanned past the closing bracket when the last pair ends at
  it: `[s a=b]c=d` gives the section two params (`Printer.ParamBehindTheBracket`). A header keeps
  to the params inside its bracket, whatever follows, if and only if no pair ends at the bracket
  or no pair stands after it (`LineSyntax.HeaderKeepsToItsBracket`). Printed params always end
  there (`Printer.TextAfterPrintedHeader`).
- Applying a provisioning document again changes no lookup if and only if no older `auth_info_N`
  section with a value of its own continues the run that the first application leaves, and the
  default-proxy fix-up has not missed a proxy that only the factory file has
  (`RemoteProvisioning.ApplyTwiceExactly`; `GapIsPrunedLater` and `ProxyIsFoundLater` are
  documents where it does). Header params of the factory file are appended each time.

## Model

The methods of `TunnelObject.TunnelManager` without a row do to the object's fields what the
function of the same purpose in `Tunnel.Manager` does to its value, and say so in their
contracts; the rows name the lemmas about those functions.

| member | source | states |
|---|---|---|
| Refinement.RunRefines | coreapi/lpconfig.c:859-880 | over any run of sets, cleans and files read, the store stays well formed and its lookups are those of the plain map the same changes make |
| Refinement.ChangeRefines | coreapi/lpconfig.c:1100-1106 | one change: a set is map update or removal, cleaning a section a restriction, reading a file a map override |
| Refinement.FlagIsSoundExactly | coreapi/lpconfig.c:859-880 | over any run of sets, section cleans, entry cleans, files read and syncs: unmarked means that every value is as of the last sync, throughout, exactly when every change that sets no flag but has an effect meets a marked store |
| Refinement.UnmarkedChange | coreapi/lpconfig.c:1374-1383 | a change that sets no flag leaves every value alone exactly when it cleans no entry that is there and reads no value the store has not |
| Refinement.CleanGoesUnmarked | coreapi/lpconfig.c:1374-1383 | set, save, clean the entry: changed since the save and not marked |
| Syncing.Target.FlagIsInFileExactly | coreapi/lpconfig.c:1020-1060 | over any run of changes and syncs in which any operation may fail: unmarked means that the file a load reads is the store's, throughout, exactly when no unmarked store changes and every sync that clears the flag puts the whole text in place |
| Syncing.Target.SyncExactly | coreapi/lpconfig.c:1043-1059 | the text is in place after a sync exactly when all writes worked and the rename did, or no main file was left, or it was in place before and the rename failed |
| Syncing.Target.UnmarkedIsLoaded | coreapi/lpconfig.c:490-503 | then an unmarked configuration is the one a load gives |
| Syncing.Target.LostWriteGoesUnmarked | coreapi/lpconfig.c:1058 | one lost write in a sync that otherwise works leaves an unmarked configuration that is not in the file |
| Store.AfterSet | coreapi/lpconfig.c:859-880 | get after set, removal by the empty value, and the frame on every other key and section |
| Store.RemovingNothing | coreapi/lpconfig.c:1374-1383 | cleaning an entry leaves the list as it is exactly when there is no such entry |
| Store.AfterPutItem | coreapi/lpconfig.c:384-391 | an entry replaced in place or appended is found with its new value, every other key keeps its own, and keys stay unique |
| Store.AfterDropSlot | coreapi/lpconfig.c:209-212 | after removal the slot is gone although only its first item was removed, and every other key keeps its value |
| Store.AfterPutComment | coreapi/lpconfig.c:353-361 | moving a comment to the end keeps comments unique and changes no value |
| Store.AfterRemoveSection | coreapi/lpconfig.c:1100-1106 | a cleaned section is gone with all its keys, all others stay, names stay unique |
| Store.AfterOpenSection | coreapi/lpconfig.c:319-323 | a header creates its section at most once and changes no value |
| Store.SetIsMapUpdate | coreapi/lpconfig.c:859-880 | seen as a map, setting is update, or removal when the value is empty |
| Store.RemoveSectionIsMapRestriction | coreapi/lpconfig.c:1100-1106 | seen as a map, cleaning a section restricts it to the other sections |
| Store.SetKeepsTheRest | coreapi/lpconfig.c:859-880 | setting touches nothing but the items of its section, params, flags and order included, or adds a section at the end |
| Store.PutKeepsTheRest | coreapi/lpconfig.c:384-391 | a value put keeps its place and its flags, or goes to the end without any; the other items stay as they are, in order |
| Store.DropIsExcept | coreapi/lpconfig.c:209-212 | a removal leaves exactly the other items, in order |
| Store.CommentMovesToEnd | coreapi/lpconfig.c:353-361 | a comment read again goes to the end, once; the other items stay in order |
| Store.OthersAround | coreapi/lpconfig.c:1100-1106 | cleaning a section leaves exactly the other sections, in order |
| Store.OpenKeepsTheRest | coreapi/lpconfig.c:319-337 | a header's params go after those its section has, or to a new section at the end, and nothing else changes |
| LineSyntax.AfterLine | coreapi/lpconfig.c:299-405 | one line changes at most the lookup it assigns under the current section, opens at most the section it names, and keeps the store well formed |
| LineSyntax.EntryLine | coreapi/lpconfig.c:363-397 | any entry line: white space before the key, white space and more words up to the first `=`, the value up to the end of the line without trailing blanks; no value means nothing |
| LineSyntax.NoEntryLine | coreapi/lpconfig.c:363-369 | a line without `=`, or with only white space before it, means nothing |
| LineSyntax.CommentLine | coreapi/lpconfig.c:353-361 | any comment line, kept with its indentation up to the end of the line |
| LineSyntax.HeaderLine | coreapi/lpconfig.c:308-323 | any header line: indented or not, white space before the name, text up to the bracket for params only; nothing without a name or without a bracket |
| LineSyntax.RunKeepsValid | coreapi/lpconfig.c:407-419 | the store stays well formed and the current section stays in it across any lines whatever |
| LineSyntax.LastWriterWins | coreapi/lpconfig.c:299-419 | after any lines on any store, a lookup is the last non-empty assignment to the key under that header, else the earlier value |
| LineSyntax.SectionsOfRun | coreapi/lpconfig.c:309-323 | a text opens exactly the sections it has headers for |
| LineSyntax.ParseIsOverride | coreapi/lpconfig.c:556-569 | reading a file on top of a store is map override by the file read alone |
| LineSyntax.LayeringIsOverride | coreapi/lpconfig.c:440-442 | any number of files layered on any store: the last file that has a key decides it |
| LineSyntax.BlankLinesDoNotMatter | coreapi/lpconfig.c:425-438 | the buffer loop, which skips empty lines, reads what the file loop reads |
| LineSyntax.ScanBeyondBracket | coreapi/lpconfig.c:325-346 | the params scan gives the params before the bracket, and those after it exactly when the last pair ends at the bracket |
| LineSyntax.HeaderKeepsToItsBracket | coreapi/lpconfig.c:309-347 | a header line means what it means cut after its bracket exactly when no pair ends at the bracket or no pair stands after it |
| LineSyntax.LooksBeyondLine | coreapi/lpconfig.c:338-340 | the params scan looks beyond the end of the line exactly when a pair ends at the bracket and another ends the line |
| LineSyntax.TokensAreNonEmptyLines | coreapi/lpconfig.c:425-438 | the tokens of a buffer are the lines of a file that are not empty |
| Printer.ScanWrittenParams | coreapi/lpconfig.c:325-346 | the params scan, which moves on by word lengths over an overwritten buffer, undoes the canonical printing of any params list |
| Printer.HeaderReadBack | coreapi/lpconfig.c:309-347 | a printed header line is read as its section and its params |
| Printer.TextAfterPrintedHeader | coreapi/lpconfig.c:325-346 | text after the bracket of a printed header is read for params exactly when the header has params of its own |
| Printer.ParamBehindTheBracket | coreapi/lpconfig.c:325-346 | `[s a=b]c=d` has two params, `[s]c=d` has none |
| Printer.EntryReadBack | coreapi/lpconfig.c:363-397 | a printed entry, indented by a tab or not at all, is read as its key and value |
| Printer.CommentReadBack | coreapi/lpconfig.c:142-155 | a printed comment is read as that comment |
| Printer.ParseUndoesPrint | coreapi/lpconfig.c:977-1010 | parsing the printed file of a printable configuration rebuilds the same sections, params, comments and entries in the same order |
| Expressible.PrintableExactly | coreapi/lpconfig.c:977-1010 | a well-formed store is read back from its file, the same sections, params, comments and entries in the same order, if and only if it is printable |
| Expressible.SetIsReadBackExactly | coreapi/lpconfig.c:859-880 | after one value is set, the store is read back from its file if and only if the entry is printable |
| Expressible.ParseIsRead | coreapi/lpconfig.c:299-405 | whatever the text, what is read has names, keys, values, params and comments of the shapes a line can give them |
| Expressible.EntriesAfterRun | coreapi/lpconfig.c:384-391 | lines bring no more entries than they assign |
| Expressible.ReadBackParams | coreapi/lpconfig.c:325-346 | a params list that is read back from its printed header has no `=` in a key and no `]` anywhere |
| Printer.SetKeepsPrintable | coreapi/lpconfig.c:859-880 | setting a printable value keeps a configuration printable |
| Printer.SectionFormat | coreapi/lpconfig.c:977-1010 | how a section with a param and an item looks in the file, where they do not show without a value, and in the dump, without params and comments |
| Printer.LoadUndoesDump | coreapi/lpconfig.c:1353-1372 | loading a dump keeps every section and every lookup, in order, and drops exactly comments, params and flags |
| Durability.CrashSafety | coreapi/lpconfig.c:1020-1060 | with an atomic rename and no failures, over any interleaving of edits, saves, crashes at any operation and restarts, a load gives the configuration of the last executed rename, whole |
| Durability.RunsWithFailures | coreapi/lpconfig.c:1020-1060 | over whole runs in which any operation of a save may fail and a crash may fall anywhere: a load gives the file last put in place, as written, until a crash meets it unflushed; it is the whole configuration exactly when no write of its save failed; the next crash leaves it alone exactly when the flush of its save worked |
| Durability.CrashProofExactly | coreapi/lpconfig.c:490-503 | no crash changes what a load gives if and only if the file it reads was flushed |
| Durability.LoadFromExactly | coreapi/lpconfig.c:490-516 | a load reads the main file, else the temporary one, gives an empty configuration when there is neither, and fails exactly when one exists and none can be opened |
| Durability.CrashSafetyRemoveFirst | coreapi/lpconfig.c:1048-1057 | where the main file is removed before the rename, no save begins without one and nothing fails: as long as the main file is there, a load gives the configuration of the last executed rename, whole; otherwise a save was begun and a load gives the configuration of the last one begun, whole |
| Durability.SaveIsSafeExactly | coreapi/lpconfig.c:490-503 | a save survives every crash, old or new and never anything else, if and only if it begins with a flushed main file |
| Durability.SafeWithMain | coreapi/lpconfig.c:1029-1057 | with a flushed main file, no crash point of a save loads as anything but the old or the new configuration |
| Durability.UnsafeWithoutMain | coreapi/lpconfig.c:492-498 | without one there is a crash point after which a load gives neither |
| Durability.FailuresAreCommitted | coreapi/lpconfig.c:977-990 | whatever operations of a save fail once its file is open, what a load then gives: what was written, when the rename worked, the main file was removed or there was none, which is the whole configuration if and only if no write failed; the earlier configuration otherwise |
| Durability.AfterWrites | coreapi/lpconfig.c:1043-1046 | the temporary file holds exactly what was written, and no other file has changed |
| Durability.AfterRename | coreapi/lpconfig.c:1048-1057 | removal and rename, each working or not: which files are there and what they hold |
| Durability.Setup.SaveStepKeepsInv | coreapi/lpconfig.c:1029-1057 | every operation of a save, working or not, keeps the protocol's invariant: the file a load reads is the one last put in place, and the temporary file holds what was written |
| Durability.Setup.RunKeepsInv | coreapi/lpconfig.c:1020-1060 | the invariant holds at the end of every run whose saves begin with a main file |
| Durability.Setup.AtomicRenameKeepsMain | coreapi/lpconfig.c:1055-1057 | with an atomic rename every save of every run does begin with a main file |
| Durability.Setup.InvMeansPlaced | coreapi/lpconfig.c:490-503 | under the invariant the recovery rule loads the file last put in place |
| Durability.FileChunksText | coreapi/lpconfig.c:1001-1010 | the pieces written one call at a time make up the printed file |
| LineBuffer.IsFirstChar | coreapi/lpconfig.c:214-220 | true exactly when only blanks precede the position |
| LineBuffer.HeaderStart | coreapi/lpconfig.c:308-309 | where the bracket of a section header stands, and on no other line |
| LineBuffer.IsAComment | coreapi/lpconfig.c:222-228 | true exactly when the first character that is no blank is a hash |
| LineBuffer.ParseParams | coreapi/lpconfig.c:325-346 | the in-place scan appends exactly the params of the text the buffer held at first |
| LineBuffer.OneMoreParam | coreapi/lpconfig.c:329-340 | one turn of the scan on the overwritten buffer is one turn on the text |
| LineBuffer.ParseAssignment | coreapi/lpconfig.c:363-381 | the key and value cut out of the buffer are those the text assigns |
| LineBuffer.CutAtEol | coreapi/lpconfig.c:371-376 | the string in the buffer ends where its line does, at a carriage return before a newline |
| LineBuffer.TrimBlanks | coreapi/lpconfig.c:377-379 | trailing blanks, and only those, are cut off in place |
| SectionList.LpSection.Find | coreapi/lpconfig.c:256-282 | the index of the first item with the key or comment, or the length |
| Config.LpConfig.FindSection | coreapi/lpconfig.c:230-242 | the first section object of the name, or null when there is none |
| Config.LpConfig.GetString | coreapi/lpconfig.c:708-718 | the value the store has for the key, or the default |
| Config.LpConfig.HasEntry | coreapi/lpconfig.c:1384-1390 | true exactly when the store has a value for the key |
| Config.LpConfig.SetString | coreapi/lpconfig.c:859-880 | the new store, and that `modified` is set unless the value was already there |
| Config.LpConfig.CleanSection | coreapi/lpconfig.c:1100-1106 | the store without the section, marked modified |
| Config.LpConfig.CleanEntry | coreapi/lpconfig.c:1374-1383 | the store without the entry, and no other field changed; it changes unmarked exactly when the entry is there and nothing was marked before |
| Config.LpConfig.ParseHeader | coreapi/lpconfig.c:309-351 | the header branch on a buffer changes the store and the current section as the text says |
| Config.LpConfig.OpenWithParams | coreapi/lpconfig.c:319-346 | the header's section is found or created, and given the params of the buffer |
| Config.LpConfig.ParseItem | coreapi/lpconfig.c:352-400 | the comment and assignment branches change the current section as the text says |
| Config.LpConfig.ParseLine | coreapi/lpconfig.c:299-405 | parsing a line in its buffer is applying what the line means |
| Config.LpConfig.ParseAll | coreapi/lpconfig.c:407-419 | the line loop applies all lines in order, starting outside any section |
| Config.LpConfig.ParseFile | coreapi/lpconfig.c:407-419 | a file read on top of the store |
| Config.LpConfig.FromBuffer | coreapi/lpconfig.c:425-448 | a new configuration holds what its buffer says |
| Config.LpConfig.WriteParams | coreapi/lpconfig.c:992-999 | appends exactly the texts of the params with a value |
| Config.LpConfig.WriteItems | coreapi/lpconfig.c:977-990 | appends exactly the texts of the comments and of the entries with a value |
| Config.LpConfig.WriteSection | coreapi/lpconfig.c:1001-1010 | one device operation for each piece of the section's text, in order |
| Config.LpConfig.Save | coreapi/lpconfig.c:1043-1057 | after the temporary file is opened, exactly the operations of one save are tried, whichever of them work, and the disk is what those that work make of it |
| Config.LpConfig.Sync | coreapi/lpconfig.c:1020-1060 | the operations tried, the disk, the flags and the status in each case: no file name, read-only, temporary file not opened, aborted, saved with any failures |
| Config.LpConfig.InitFromFiles | coreapi/lpconfig.c:450-522 | on the disk and what can be opened: which text is read, with the factory file on top, the factory file alone when there is none, and failure exactly when a file exists and none can be opened |
| Config.LpConfig.DumpSection | coreapi/lpconfig.c:1353-1364 | appends the section's name and its entries, comments left out |
| Config.LpConfig.Dump | coreapi/lpconfig.c:1366-1372 | the dump text of the store |
| Codecs.IntRoundTrip | coreapi/lpconfig.c:777-787 | every 32-bit integer set is read back; only the number 0 is read in octal |
| Codecs.HexRoundTrip | coreapi/lpconfig.c:920-924 | every 32-bit integer set in hexadecimal is read back, negative ones through two's complement |
| Codecs.Int64RoundTrip | coreapi/lpconfig.c:799-809 | every 64-bit integer set is read back, through a conversion that wraps at 64 bits |
| Codecs.RangeRoundTrip | coreapi/lpconfig.c:748-775 | a range is read back exactly when its minimum is not negative, otherwise the defaults and false |
| Codecs.RangeTexts | coreapi/lpconfig.c:755-768 | any stored range text: a minus sign that is not the first character separates the numbers, else the defaults and false |
| Codecs.OtherTexts | coreapi/lpconfig.c:777-787 | texts printf did not write: white space and a sign first, then a prefix that decides between base 16, 8 and 10, up to the last digit |
| Codecs.MissingGivesDefault | coreapi/lpconfig.c:770-774 | a key without a value gives the defaults, and true for a range |
| Codecs.SplitUndoesJoin | coreapi/lpconfig.c:732-740 | splitting a joined non-empty list of comma-free strings gives the list |
| Codecs.JoinUndoesSplit | coreapi/lpconfig.c:889-895 | joining what any string splits into gives the string |
| Codecs.StringListRoundTrip | coreapi/lpconfig.c:882-898 | a list of comma-free strings set is read back, or the default exactly for the empty list and the single empty string |
| Codecs.JoinAll | coreapi/lpconfig.c:886-895 | the loop joins all elements, and gives a null pointer for the empty list |
| Codecs.SetStringList | coreapi/lpconfig.c:882-898 | stores the joined list |
| Codecs.GetStringList | coreapi/lpconfig.c:720-746 | the loop that cuts the copy in place gives the split of the stored value, or the default |
| Provisioning.ProvisionTwice | coreapi/lpconfig.c:577-595 | importing any document twice, fix-up included, leaves every lookup and section as importing it once |
| Provisioning.AfterPuts | coreapi/xml2lpc.c:132-207 | the import seen from one key: absent or overwrite, in document order; and which sections it creates |
| Provisioning.EffectTwice | coreapi/xml2lpc.c:153-160 | a second pass gives the first pass's result where some entry overwrites, and changes nothing elsewhere |
| Provisioning.AfterFix | coreapi/lpconfig.c:582-586 | the default-proxy fix-up changes one key at most, and leaves an `sip` section wherever there is a first proxy |
| Provisioning.FixExactly | coreapi/lpconfig.c:582-586 | the default proxy becomes 0 exactly when there is a first proxy and the value is missing or reads as -1 |
| Provisioning.OverwritingEntry | coreapi/xml2lpc.c:132-166 | an entry with `overwrite="true"` anywhere among its attributes stores its text whatever was there, and an empty text removes |
| Provisioning.ModestEntry | coreapi/xml2lpc.c:153-160 | any other entry stores its text where nothing is, and leaves a value that is there |
| Provisioning.OtherNodesInSection | coreapi/xml2lpc.c:180-188 | text, other elements and entries without a name may stand anywhere in a section and ask for nothing |
| Provisioning.OtherNodesInDocument | coreapi/xml2lpc.c:197-218 | the same in a document; a root of another name asks for nothing |
| Provisioning.SectionInDocument | coreapi/xml2lpc.c:168-195 | a named section asks for its entries, in order and under its last name, wherever it stands |
| Provisioning.ExportThenImport | coreapi/lpc2xml.c:124-239 | importing an export into any store: the exported value exactly where the entry is unskipped and absent from the store or flagged to overwrite, by entry or section |
| Provisioning.ImportOfExport | coreapi/lpc2xml.c:161-233 | on the fields: a skipped entry, an entry of a skipped section and a key that begins with a hash leave the other store alone; any other entry gives its value where there is none or where entry or section overwrite |
| Provisioning.ImportLeavesOthers | coreapi/lpc2xml.c:161-233 | what the exported store has no entry for is left alone |
| Provisioning.ExportInOrder | coreapi/lpc2xml.c:161-200 | entries are exported in the order of the store |
| Provisioning.SectionsInOrder | coreapi/lpc2xml.c:208-239 | and so are sections |
| Provisioning.ExportThenImportAnew | coreapi/lpc2xml.c:161-233 | importing an export into an empty store reproduces it without skipped and commented entries |
| Provisioning.EffectOfEntries | coreapi/lpc2xml.c:161-193 | of the exported entries of a section at most one concerns a key, and it has that key's value and flags |
| Provisioning.ReadAttributes | coreapi/xml2lpc.c:138-147 | the loop yields the last name, and overwrite exactly when some attribute says true |
| Provisioning.ProcessEntry | coreapi/xml2lpc.c:132-166 | stores the entry when its key is absent or it is to overwrite |
| Provisioning.ProcessSection | coreapi/xml2lpc.c:168-195 | applies the named entries of the section, in order |
| Provisioning.ProcessDoc | coreapi/xml2lpc.c:197-218 | applies the named sections of a `config` root, and nothing of any other root |
| Provisioning.XmlConvert | coreapi/lpconfig.c:577-590 | the import followed by the default-proxy fix-up |
| Provisioning.ExportSection | coreapi/lpc2xml.c:161-200 | the nodes of a section's unskipped, uncommented entries |
| Provisioning.ExportEntry | coreapi/lpc2xml.c:124-152 | the node of an entry: its name, its value, and the overwrite flag of entry or section |
| Provisioning.ExportConfig | coreapi/lpc2xml.c:208-239 | the tree of all unskipped sections |
| Headers.UsesKeepAList | coreapi/remote_provisioning.c:152-220 | from a gap-free start, any sequence of adds and clears keeps a gap-free list that reads as a plain list |
| Headers.HeadersAfterAdd | coreapi/remote_provisioning.c:164-177 | an added header is read back as the last one exactly when the index after the first free one is free; a gap-free list stays so |
| Headers.ClearRemovesHeaders | coreapi/remote_provisioning.c:152-160 | clearing removes exactly the headers a read returns and changes no other lookup |
| Headers.HeadersAfterClear | coreapi/remote_provisioning.c:152-160 | after a clear no header is read, and a gap-free list stays so |
| Headers.SearchEnds | coreapi/remote_provisioning.c:166-171 | the free-index search ends, at an index that is free and with all before it taken |
| Headers.KeysFit | coreapi/remote_provisioning.c:166-171 | there are no more distinct keys than items, the reason the search ends |
| Headers.SplitHeader | coreapi/remote_provisioning.c:181-193 | the parts before and after the first colon, or nothing without one |
| Headers.SplitUndoesAdd | coreapi/remote_provisioning.c:181-193 | a header splits back into its name and value exactly when the name has no colon |
| Headers.SplitAtFirstColon | coreapi/remote_provisioning.c:181-193 | any header is cut at its first colon, or not at all without one |
| Headers.FirstHeader | coreapi/remote_provisioning.c:164-177 | the first header is stored in `[misc]` under `config-uri-header_0` as name, colon and value |
| Headers.FirstNames | coreapi/remote_provisioning.c:40-47 | the numbered names start at 0 with `config-uri-header_0` and `auth_info_0` |
| Headers.PruneRemovesTheRun | coreapi/remote_provisioning.c:40-47 | pruning removes exactly the maximal run of numbered sections and keeps all others in order |
| Headers.FindFreeIndex | coreapi/remote_provisioning.c:166-171 | the loop ends at the first free index |
| Headers.AddProvisioningHeader | coreapi/remote_provisioning.c:164-177 | stores the header at the first free index |
| Headers.GetProvisioningHeaders | coreapi/remote_provisioning.c:209-220 | the headers up to the first free index |
| Headers.ClearProvisioningHeaders | coreapi/remote_provisioning.c:152-160 | removes the headers one after the other until an index is free |
| Headers.PruneAuthInfo | coreapi/remote_provisioning.c:40-47 | removes the numbered sections one after the other until one is missing |
| RemoteProvisioning.ApplyTwiceExactly | coreapi/remote_provisioning.c:36-54 | applying a document again, with pruning, import, fix-up and factory file, changes no lookup if and only if no older numbered section with a value of its own continues the run and the fix-up has not missed a proxy of the factory file |
| RemoteProvisioning.ApplyTwiceWithoutGaps | coreapi/remote_provisioning.c:36-54 | it changes none when the numbered sections have no gap and a first proxy is known without the factory file |
| RemoteProvisioning.GapIsPrunedLater | coreapi/remote_provisioning.c:40-47 | an older `auth_info_1` survives the first application of a document that brings `auth_info_0`, and is lost in the second |
| RemoteProvisioning.ProxyIsFoundLater | coreapi/lpconfig.c:582-586 | a first proxy that only the factory file has becomes the default one at the second application |
| RemoteProvisioning.AfterApply | coreapi/remote_provisioning.c:36-54 | one application seen from one key, and which sections it leaves |
| RemoteProvisioning.WhoDecides | coreapi/remote_provisioning.c:36-54 | the factory file has the last word; a key that neither it nor the document names keeps its value, and has none in a pruned section |
| RemoteProvisioning.AfterPrune | coreapi/remote_provisioning.c:40-47 | pruning, seen from one key: gone exactly in the maximal run from `auth_info_0` |
| RemoteProvisioning.ApplyProvisioning | coreapi/remote_provisioning.c:36-54 | pruning, import when the document can be read, and the factory file on top, in this order |
| Tunnel.ReachableStates | coreapi/TunnelManager.cc:488-539 | in every reachable state: disabled or unreachable means off; on means a target of on and a started client; detecting means mode auto, network reachable and a current mirror |
| Tunnel.InvariantAlwaysHolds | coreapi/TunnelManager.cc:585-655 | the full invariant is inductive over calls, network changes and events in any order, with any answers of foreign code |
| Tunnel.StepKeepsInv | coreapi/TunnelManager.cc:488-691 | every single operation keeps the invariant |
| Tunnel.Manager.SetModeKeepsInv | coreapi/TunnelManager.cc:515-539 | a change of mode keeps the invariant |
| Tunnel.Manager.ReachableKeepsInv | coreapi/TunnelManager.cc:635-655 | a change of the network keeps the invariant |
| Tunnel.Manager.AfterApplyState | coreapi/TunnelManager.cc:488-499 | reachable, with a target of on, the client is started and the tunnel is on as soon as the client is ready; with a target of off, the tunnel is off and the client stopped; nothing happens otherwise |
| Tunnel.Manager.ClientStops | coreapi/TunnelManager.cc:347-358 | a stopped client is deleted, or as long as calls run only no longer started |
| Tunnel.Manager.AfterSetMode | coreapi/TunnelManager.cc:515-539 | a change of mode: enabled, the target is on and, once reachable, the client started and the tunnel on if the client is ready; disabled, the tunnel is off and its client stopped; automatic, probing begins at the first mirror when it can and nothing else changes |
| Tunnel.Manager.AfterReachable | coreapi/TunnelManager.cc:635-655 | the network lost: off, client stopped, no detection, no task; found: probing begins anew in automatic mode, else the tunnel follows the target, on if the client is ready |
| Tunnel.StartedDetection | coreapi/TunnelManager.cc:679-691 | a start probes the first mirror, begins a background task unless one lives, and keeps the invariant |
| Tunnel.Manager.TaskEnds | coreapi/TunnelManager.cc:668-677 | stopping a detection ends the one task there is |
| Tunnel.Manager.AfterMirrorResult | coreapi/TunnelManager.cc:585-619 | a success decides off, a failure starts the next mirror, the last failure decides on, and turns the tunnel on if the client is ready; the invariant is kept |
| Tunnel.Manager.CleanKeepsInvExactly | coreapi/TunnelManager.cc:94-106 | cleaning the servers keeps the invariant exactly when no detection runs |
| Tunnel.CleanDuringDetection | coreapi/TunnelManager.cc:94-106 | a run of four calls after which the next probe result meets a detection whose iterator is at the end of the list |
| Tunnel.DetectionDecides | coreapi/TunnelManager.cc:585-619 | whatever events come, a running detection probes the remaining mirrors in order, each once, and the results among the events decide: off at the first success, on after the last failure; events of the tunnel in between or afterwards do not change that |
| Tunnel.DetectionFromStart | coreapi/TunnelManager.cc:679-691 | from a start over n mirrors, with any events: off at the first success, on after exactly n failures, else still running with the next mirror started |
| Tunnel.DecisionStands | coreapi/TunnelManager.cc:506-513 | with no detection running, no events change the target, start a probe or take away the client of a tunnel that is to be on; later results alone change nothing at all |
| Tunnel.ConnectingTurnsOn | coreapi/TunnelManager.cc:506-513 | a tunnel that is to be on turns on, and stays on, exactly when it is told of a connection that the client is ready for |
| Tunnel.BlockedUdpTurnsTunnelOn | coreapi/TunnelManager.cc:585-619 | after all mirrors have failed, a connection that the client is ready for turns the tunnel on |
| Tunnel.QuietEvents | coreapi/TunnelManager.cc:506-513 | a lost connection, a result without a detection and a mode set again do nothing |
| Tunnel.EventsAreConserved | coreapi/TunnelManager.cc:566-579 | over every interleaving of posters and the drain loop, handled events, the one in flight and the queue are the posted history; the invariant holds throughout |
| Tunnel.OneTaskAlways | coreapi/TunnelManager.cc:541-546 | in every run that hands no probe result to a detection whose iterator is at the end of the list, at most one background task lives, and its id is the stored one |
| Tunnel.CleansIdleNeverAtEnd | coreapi/TunnelManager.cc:585-603 | the iterator is never at the end when a probe result is handled, in any run that cleans the servers only while no detection runs |
| TunnelObject.TunnelManager.PostEvent | coreapi/TunnelManager.cc:621-625 | the event is last in the queue and in the posted history |
| TunnelObject.TunnelManager.SetMode | coreapi/TunnelManager.cc:515-539 | the mode is applied, with the outcome AfterSetMode gives, and the invariant kept |
| TunnelObject.TunnelManager.ChangeNetwork | coreapi/TunnelManager.cc:635-655 | the change of the network is applied, with the outcome AfterReachable gives, and the invariant kept |
| TunnelObject.TunnelManager.OnIterate | coreapi/TunnelManager.cc:566-579 | all events posted before or while draining are handled once and in order, and the manager ends as if it had handled them one by one |
| TunnelObject.TunnelManager.HandleFront | coreapi/TunnelManager.cc:568-577 | one turn of the drain loop handles the front event with the iterator on a mirror, and loses no event posted meanwhile |
| TunnelServers.TextRoundTrip | coreapi/linphone_tunnel.cc:95-209 | the text of a config with a host reads back as the config, up to the delay without a mirror port and the second port without a second host |
| TunnelServers.HalfByFields | coreapi/linphone_tunnel.cc:127-175 | any text without a slash, by its fields: nothing for one, host and port for two, the mirror port from the third, the delay from the fourth, nothing for five, the sixth as the port |
| TunnelServers.SecondHalfByFields | coreapi/linphone_tunnel.cc:176-205 | the fields after the slash give the second host and port when there are two to four of them and the first half gives a config |
| TunnelServers.ListRoundTrip | coreapi/linphone_tunnel.cc:211-232 | the saved text of a list reads back as the configs that have a host, in order, normalised |
| TunnelServers.ConfigFromString | coreapi/linphone_tunnel.cc:127-209 | the two field loops give the config the text stands for, or nothing |
| TunnelServers.WordsSnoc | coreapi/linphone_tunnel.cc:268-271 | reading word by word, a word joined with a blank is the last one |
| TunnelServers.AddAgrees | coreapi/linphone_tunnel.cc:234-257 | adding a config keeps the manager's three lists the order-preserving projections of the config list |
| TunnelServers.SavedAgrees | coreapi/linphone_tunnel.cc:211-257 | the projections of a saved and reloaded list are those of the list |
| TunnelServers.RefreshKeepsInvExactly | coreapi/linphone_tunnel.cc:284-294 | building the manager's lists anew, from whatever configs, keeps the manager's invariant exactly when no detection runs |
| TunnelList.LoadUndoesSave | coreapi/linphone_tunnel.cc:259-282 | a load after a save, through the store, finds the configs with a host, normalised |
| TunnelList.SavedText | coreapi/linphone_tunnel.cc:211-232 | the list is stored in `[tunnel]` under `server_addresses`, each text after a blank, and without configs there is no entry |
| TunnelList.RestartKeepsTheLists | coreapi/linphone_tunnel.cc:259-282 | after a save and a restart with the same dual setting the manager is told the same servers, pairs and mirrors |
| TunnelList.LinphoneTunnel.JoinTexts | coreapi/linphone_tunnel.cc:212-227 | the loop joins the texts of the configs that have one |
| TunnelList.LinphoneTunnel.SaveConfig | coreapi/linphone_tunnel.cc:211-232 | the list's text is stored, or the entry removed when there is none |
| TunnelList.LinphoneTunnel.AddServerIntern | coreapi/linphone_tunnel.cc:234-257 | the config is appended and the manager's lists still agree |
| TunnelList.LinphoneTunnel.AddServer | coreapi/linphone_tunnel.cc:296-299 | the config is appended, the lists agree, the list is saved |
| TunnelList.LinphoneTunnel.RefreshConfig | coreapi/linphone_tunnel.cc:284-294 | the same config list, manager lists built anew that agree with it, and the manager's invariant kept exactly when no detection runs |
| TunnelList.LinphoneTunnel.RemoveServer | coreapi/linphone_tunnel.cc:301-309 | one occurrence of the object goes, the lists agree, the list is saved; nothing happens for an unknown object |
| TunnelList.LinphoneTunnel.CleanServers | coreapi/linphone_tunnel.cc:315-323 | empty lists on both sides, and the saved entry removed |
| TunnelList.LinphoneTunnel.LoadConfig | coreapi/linphone_tunnel.cc:259-282 | the saved configs are appended, and the lists agree |
| TunnelList.LinphoneTunnel.LoadWords | coreapi/linphone_tunnel.cc:266-279 | the loop, whose condition never changes, ends with the text and adds every readable word |
| Credentials.FindAuthInfo | coreapi/authentication.c:91-136 | the loop finds the first answer, or with a realm alone the only one |
| Credentials.UniqueRealmWins | coreapi/authentication.c:178-189 | a unique match of the realm beats every fallback over domain and user name |
| Credentials.ChosenExactly | coreapi/authentication.c:91-189 | the chain of searches chooses an entry if and only if it is the only one of the realm, or, when none or several are, the first of realm and domain, else the first of the domain, else the first of the user, the last two without an HA1 unless realms are ignored |
| Credentials.RealmAndDomainNext | coreapi/authentication.c:180-182 | when several entries match the realm, the first that also matches the domain is chosen |
| Credentials.TwoDomains | coreapi/authentication.c:120-123 | of two accounts in one realm the one of the domain asked for is chosen |
| Credentials.CompatibleExactly | coreapi/authentication.c:68-89 | which algorithms an entry can answer, by its algorithm, password and HA1 |
| Credentials.RealmMatchExactly | coreapi/authentication.c:49-66 | quotes around a realm do not matter; realms without quotes match exactly when equal in their first 127 characters |
| Credentials.ExpiresOnTime | coreapi/authentication.c:190-195 | an expiry of 0 is none, any other holds up to the second before it |
| Credentials.ChosenFits | coreapi/authentication.c:171-189 | what is chosen is for the user and the algorithm, and carries an HA1 only for the realm asked for unless realms are ignored (section 3.4.2 of RFC 7616) |
| Credentials.NothingChosen | coreapi/authentication.c:184-189 | when nothing is chosen, every candidate carries an HA1 that realms are not ignored for, and none matches both realm and domain |
| Credentials.AuthStore.Lookup | coreapi/authentication.c:171-203 | the chosen entry is returned unless it has expired, in which case exactly it is removed; the result fits, has not expired, and the list stays free of duplicates |
| Credentials.AddedIsDistinct | coreapi/authentication.c:319-327 | an add leaves no two entries of one identity if there were none, keeps every entry of another identity, and holds the new one |
| Credentials.AddReplacesExactly | coreapi/authentication.c:210-223 | an add takes away exactly the entry that agrees in user, realm, domain and having an access token; the new one is last |
| Credentials.AuthStore.Add | coreapi/authentication.c:307-327 | an entry without any secret is refused; another replaces the one of its identity, at the end |
| Credentials.AuthStore.FindToBeReplaced | coreapi/authentication.c:210-223 | the first entry of the same user, realm, domain and kind, or the length |

## Left out

- Opening and locating files, permissions, path resolution and the limit on line length: platform input and output; a file is its text, and a read hands out its lines.
- LineBuffer.ParseParams: the source's scan can look one character past the end of the line when the last param ends there; the model treats that position as the end of the text. LineSyntax.LooksBeyondLine gives exactly the headers where this happens.
- Config.LpConfig.Save: an operation works or has no effect; a write that leaves part of its text is not told apart from none.
- Syncing.Target.FlagIsInFileExactly: the configuration stays printable throughout, as a file can tell no other store from another.
- Durability.CrashSafety: the rename is durable at once, and a main file that exists can be opened; LoadFrom and InitFromFiles have the case where it cannot.
- Items and header params are values inside their section object, so updating one in place is replacing it in the section's list; sharing an item between sections is not expressible.
- Codecs.IntRoundTrip: numbers in the text that do not fit the integer type, for which C leaves the conversion undefined, are wrapped; the 64-bit reader and the tunnel's fields alike.
- The float accessors, the default-value sections, reading and writing relative files, logging, reference counts and memory: no further property.
- The XML library, schema validation and the conversion from ISO-8859-1: the document is a tree, and content is ASCII.
- The flag setters for skip and overwrite: the flags are part of the store's value and arbitrary in every theorem on export.
- RemoteProvisioning.ApplyProvisioning: the save at the end of an import, and telling the core that configuring has ended.
- HTTP download, the tunnel's sockets and RTP transports, TLS certificates and SIP registration: foreign calls. The client exists or not and is started or not; whether it is ready, how many calls run and the id of a new task are answers given to each operation.
- Tunnel.InvariantAlwaysHolds: a reachability change and its callback are one step; probes already sent may still report after a restart of the detection, so a decision may rest on results of an earlier one.
- Tunnel.OneTaskAlways: the step at which the source dereferences the end of the mirror list is left open; runs that take it are not claimed anything about.
- Tunnel.EventsAreConserved: posting and taking an event are single steps, as the lock makes them.
- unlinkLinphoneCore and the destructor: terminal; no operation follows them.
- The client's own copy of the server lists, and a change of the dual setting while servers are configured.
- TunnelList.LinphoneTunnel.AddServer: config objects do not change once they are in the list; their setters are not modelled.
- TunnelServers.ConfigFromString: a word made of slashes only has no fields.
- Credentials.AuthStore.Lookup: realms are clipped to the 127 characters the source copies; what follows them in its buffer is not modelled. Writing the list back to the configuration is left out.
- Credentials.AuthStore.Add: restarting pending authentications is left out. So are the searches for TLS and bearer credentials, token refresh and the filling of belle-sip events.
