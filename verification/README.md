# Verified model of the Twainet core structures

Twainet is a messaging daemon and library. This project models the data
structures, codecs and the lock that it stands on, and proves what they
promise:

- the INI engine (`IniText`, `IniParse`, `IniScan`, `IniStore`,
  `IniMultimap`, `IniMemory`, `Ini`, `IniView`, `IniShapes`, `IniComments`,
  `IniReparse`, `IniValues`, `IniRoundTrip`, `IniNormalise`, `IniRuns`,
  `IniConverse`, and in characters `IniLetters`, `IniCharacters`, `IniLines`,
  `IniBlocks`, `IniAnyText`, `IniFiles`): a parser that works inside the buffer
  it reads, an ordered multimap store with its own string memory, and a printer;
- the Base64 routines (`Base64`, `Base64Codec`): two encoders, a lenient and a
  strict decoder;
- the UTF-16/UTF-8 converters with the decomposition table (`Utf`,
  `UtfConvert`, `UtfShortest`, `UtfComposed`);
- the reentrant lock (`CriticalSection`), as steps of arbitrarily many threads;
- the sorted registry and its upkeep (`ObjectManager`, `Modules`), over
  `Lexicographic`.

`dafny verify dfyconfig.toml` checks everything.

## How the parts hang together

**INI.** `IniParse` says what a text means: the sequence of its entries, as
functions of the text alone. `IniScan` is the parser of the program: cursors in
an `array<char>` in which it plants NULs and moves lines down. `FindEntry` is
proved to find exactly the entry that the original text has next, to move
strictly forward and to write only between its old and its new cursor, so the
strings it returned earlier stay what they were. `IniStore` and `IniMultimap`
treat the tables as values: `find` is the lower bound of a case-folded name,
`insert` the upper bound; adding and deleting are shown to be writes of a
multimap, and the load orders keep their invariant. `IniMemory` adds the
pointers: a string lies in the loaded text, in a block owned by the store, or
in static memory; `Sound` says that no pointer of the store dangles and that
each owned block has exactly one pointer. The class `Ini.SimpleIni` has the
program's fields; every public method keeps `Valid()` (which contains `Sound`,
the sortedness and the order invariant) and states its new contents by the
value functions. `IniView` describes the saved text. `IniShapes` says which
names, values and comments the format can carry; `IniComments` and `IniValues`
prove that these are the ones that come back, values in both modes exactly
those. `IniReparse` parses a printed text with its comments, and `IniRoundTrip`
loads it into an empty store: the document is shown again, except that the
comment of a first section becomes a file comment when there is none
(`IniReparse.Reloaded`). `IniNormalise` does the same for texts that Save did
not write, and `IniRuns` for every sequence of operations and for the class
itself. `IniConverse` is the other direction: in single-line mode a document
without comments comes back only if all its names, keys and values are of the
proper shapes, whatever they are.

All of these go through the character classes of the parser. Six modules say
the same format in plain characters, so that the classes themselves are held to
it: `IniLetters` which names are the same and which comes first, `IniCharacters`
the shapes of names, values and comments and the saved text, `IniLines` and
`IniBlocks` what each kind of line is read as, with any blanks and any line
breaks, `IniAnyText` what no text can yield, and `IniFiles` how a file starts
and how far comments and section names reach.

**Base64.** `Encode` is the RFC 4648 encoding; `SextetsSpellTheBits` and
`BitsAreKept` relate encoding and decoding to the bits of the data. The four
routines are loops over the same small buffers as in the program, proved
against `Encode`, `Whole` and `Strict`; `StrictIsCanonical` characterises the
strict decoder completely.

**UTF.** `Utf8`, `Points` and `Pieces` are the standard forms; the converters
are loops over caller buffers, with the falling-through `switch` as a method
that writes one byte and goes on with the next case. `BackIsIdentity` and
`NormalisationIsStable` are both if-and-only-if. `UtfShortest` holds the UTF-8
forms to the bits of RFC 3629 and to its rule of the shortest form;
`UtfComposed` holds the decomposition table to the compositions of the Unicode
Standard, read the other way round.

**Lock.** Each memory access of `Enter` and `Leave` is a step; the invariant is
kept by every step of every thread, and completed calls form a legal history of
an atomic reentrant lock. Calls also get on: an Enter is three accesses and a
Leave four in every interleaving, a free lock is taken, and whoever waits can
get it.

**Registry.** The vector refines a map keyed by host; the reconcile pass of
`Module` is restriction of that map to the hosts that are alive.

## Where the code and its documentation differ

- The end tag of a multi-line value is compared without regard to letter case
  (src/cpp/common/SimpleIni.h:1714-1717), where the comments show it as written.
  So a line that reads like the tag in other letters ends the block too:
  `IniValues.TagInOtherCaseIsLost` is a value that is lost this way, and
  `IniValues.ValueSurvivesIff` says exactly which values survive.
- `SetMultiKey(false)` is documented to make the last value win, and to be
  changeable at any time (src/cpp/common/SimpleIni.h:483-503). That holds for
  keys stored while it is in force (`IniRuns.SetValueIsShown`,
  `IniRuns.LastValueWins`). Turning it off later shows the first of several
  stored values: `IniRuns.SwitchingOffShowsFirst` is a run that ends so, and
  `IniRuns.SwitchingOffShowsYoungestIff` says when the youngest is shown.
- Comments are documented to be preserved (src/cpp/common/SimpleIni.h:124-139).
  A section's comment that the saved text starts with is read as a file comment
  up to its first blank line; `IniReparse.Reloaded` says what becomes of it, and
  `IniRoundTrip.LoadInvertsSave` that nothing else changes.
- White space is documented to be removed around sections, keys and values
  (src/cpp/common/SimpleIni.h:28). A '[' line without ']' that is followed by a
  comment takes it into the section's name as it stands, blanks at its end
  included: `IniAnyText.NameEndsLikeComment` has the texts, and
  `IniAnyText.EntriesInCharacters` says that no other name, no key and no
  one-line value keeps a blank.
- ConvertUTF.h declares the converters with a flags argument and other const
  qualifiers, and documents error returns for illegal sequences; the bodies in
  ConvertUTF.c have neither. The bodies are modelled. `UCS4` is taken as
  unsigned 32-bit, as its constants require.
- ConvertUTF8toUTF16 reports an exhausted source only when at least two bytes of
  the last character are missing, because the first byte is not counted
  (src/cpp/utils/ConvertUTF.c:228); `UtfConvert.CutOffIsSeenIff` is the exact
  condition.
- The comment above the decomposition says that its result is the correct
  decomposed sequence; the table covers Latin-1 letters and kana only.

## Model

| member | source | states |
|---|---|---|
| `CriticalSection.StepKeepsInv` | src/cpp/include/critical_section.h:35-64 | every memory access of any thread in Enter or Leave keeps the lock's invariant |
| `CriticalSection.EveryRunIsSafe` | src/cpp/include/critical_section.h:35-64 | in every interleaving: mutual exclusion, the unsynchronised owner test is right, the owner word names only the holder, the counter is the nesting depth less one and zero when free |
| `CriticalSection.MutexMovesOnlyAtOutermost` | src/cpp/include/critical_section.h:42-58 | the mutex is released exactly at the outermost Leave and taken only at an outermost Enter |
| `CriticalSection.NoDeadlock` | src/cpp/include/critical_section.h:40-47 | a thread that cannot move waits for another one, which can move |
| `CriticalSection.StepRefinesLock` | src/cpp/include/critical_section.h:35-64 | completing Enter is an atomic acquire, completing Leave an atomic release, every other access is invisible |
| `CriticalSection.EveryRunRefinesLock` | src/cpp/include/critical_section.h:35-91 | the completed calls of any run are a legal history of an atomic reentrant lock and end in its state |
| `CriticalSection.StepMakesProgress` | src/cpp/include/critical_section.h:35-64 | each access of a thread takes exactly one off what its call has left, three for Enter and four for Leave, and no other thread's access changes that |
| `CriticalSection.EveryCallCompletes` | src/cpp/include/critical_section.h:35-64 | in every interleaving a call takes as many accesses of its thread as it has, no more and no fewer |
| `CriticalSection.FreeLockIsTaken` | src/cpp/include/critical_section.h:40-44 | an Enter on a free lock holds it after three accesses, at depth one |
| `CriticalSection.HolderGoesDeeper` | src/cpp/include/critical_section.h:40-47 | an Enter of the holder raises its depth by one in three accesses |
| `CriticalSection.OutermostLeaveFrees` | src/cpp/include/critical_section.h:55-60 | a Leave at depth one frees the lock in four accesses |
| `CriticalSection.InnerLeaveStays` | src/cpp/include/critical_section.h:55-62 | a Leave further in lowers the depth by one and keeps the lock |
| `CriticalSection.LockCanBeFreed` | src/cpp/include/critical_section.h:35-64 | in every state the holder can free the lock without any other thread moving |
| `CriticalSection.WaitingThreadCanEnter` | src/cpp/include/critical_section.h:40-44 | from every state a waiting thread can come to hold the lock |
| `Lexicographic.Trichotomy` | src/cpp/include/client_module_name.h:39-42 | string order is total: exactly one of below, above and equal |
| `Lexicographic.LessIff` | src/cpp/include/client_module_name.h:39-42 | the order is decided by the codes behind a common front part, or by the string that ends with it |
| `ObjectManager.FoundIffMember` | src/cpp/include/object_manager.h:30-40 | the lower bound of a sorted vector finds a host exactly when the map has it |
| `ObjectManager.InsertIsMapInsert` | src/cpp/include/object_manager.h:14-32 | inserting at the lower bound of an absent host is a map write |
| `ObjectManager.SortedVectorIsCanonical` | src/cpp/include/object_manager.h:85-89 | a sorted vector is determined by the map it stands for |
| `ObjectManager.KeptIsFilter` | src/cpp/include/object_manager.h:103-115 | what the functor spares stays sorted and is exactly the map's bindings it did not condemn |
| `ObjectManager.ObjectManager.AddObject` | src/cpp/include/object_manager.h:14-32 | adds a binding exactly when the host is new, and leaves a known host alone |
| `ObjectManager.ObjectManager.RemoveObject` | src/cpp/include/object_manager.h:34-44 | removes the host's binding, telling whether there was one |
| `ObjectManager.ObjectManager.GetObject` | src/cpp/include/object_manager.h:60-72 | returns the binding of the host, if any |
| `ObjectManager.ObjectManager.UpdateObject` | src/cpp/include/object_manager.h:74-85 | overwrites the binding of a known host only |
| `ObjectManager.ObjectManager.GetObjectList` | src/cpp/include/object_manager.h:87-91 | the list is sorted and stands for the whole map |
| `ObjectManager.ObjectManager.CheckObjects` | src/cpp/include/object_manager.h:105-117 | shows each object once, in order, and keeps exactly those the functor spares |
| `Modules.AddAllKeepsKnown` | src/cpp/include/module.h:361-368 | adding a name list makes exactly its hosts known besides, renames none, and gives a new host the name listed for it first |
| `Modules.RecipientsInOrder` | src/cpp/include/module.h:397-404 | the connections that the list goes to are taken one by one, in their order |
| `Modules.RecipientsOfOne` | src/cpp/include/module.h:399-401 | a connection gets the list exactly when it has a host and the name Client |
| `Modules.RecipientsCount` | src/cpp/include/module.h:397-404 | each such connection gets it as often as it is listed, and no other one does |
| `Modules.RestrictKeeps` | src/cpp/include/module.h:158-177 | a host stays known exactly when some module of the list has it, under the name it had |
| `Modules.Module.OnModuleListChanged` | src/cpp/include/module.h:149-200 | both registries become their old maps restricted to the hosts that have a module |
| `Modules.Module.Prune` | src/cpp/include/module.h:158-177 | one registry restricted to the live hosts |
| `Modules.Module.OnClientName` | src/cpp/include/module.h:373-406 | add-or-update is a map write; the whole registry goes to every client connection with a host |
| `Modules.Module.OnClientNameList` | src/cpp/include/module.h:361-368 | every listed host is added unless known |
| `IniText.NameLessIsStrictWeakOrder` | src/cpp/common/SimpleIni.h:2523-2538 | the comparator is a strict weak order on all strings |
| `IniText.NoCaseLess` | src/cpp/common/SimpleIni.h:2523-2538 | the character loop decides the order of the case-folded strings |
| `IniLetters.FoldedLetters` | src/cpp/common/SimpleIni.h:2525-2527 | folding takes each of the 26 capital letters to its small one and leaves every other character alone |
| `IniLetters.SameNameIff` | src/cpp/common/SimpleIni.h:2523-2538 | two names are the same exactly when they have the same length and, place by place, the same characters up to the case of the 26 letters |
| `IniLetters.NameLessIff` | src/cpp/common/SimpleIni.h:2523-2538 | the order is decided at the first place where names differ in that sense, by the codes of the small letters, or by the name that ends there |
| `IniScan.TrimInPlace` | src/cpp/common/SimpleIni.h:1529-1535 | a piece is trimmed and ended by a NUL inside the buffer, nothing before it is written |
| `IniScan.LoadMultiLineText` | src/cpp/common/SimpleIni.h:1635-1755 | compaction leaves the lines before the tag, or the comment run with its inner blank lines, joined by single newlines, for any mix of line breaks; the text ahead of the cursor and everything before the start stay untouched; it fails exactly on an absent comment and on an empty tag line that comes first |
| `IniScan.BodylessReadsOn` | src/cpp/common/SimpleIni.h:1717-1733 | for a block without a body the returned pointer runs on through its own tag line |
| `IniScan.ReadHeader` | src/cpp/common/SimpleIni.h:1471-1507 | a '[' line yields the trimmed name, or is left pending when unclosed |
| `IniScan.ReadValue` | src/cpp/common/SimpleIni.h:1537-1565 | the value behind an equals sign: the trimmed rest of its line or the block it opens |
| `IniScan.FindEntry` | src/cpp/common/SimpleIni.h:1443-1572 | the in-place parse refines the pure parse: it finds the next entry of the original text, moves strictly forward and writes only between its entry and exit cursor |
| `IniLines.PairIsRead` | src/cpp/common/SimpleIni.h:1509-1568 | in any text a key, an equals sign and a value are read as that pair, with any white space before, any blanks between and behind, and LF, CR, CRLF or the end of the text; the cursor stops behind the line break |
| `IniLines.KeyAndValue` | src/cpp/common/SimpleIni.h:1509-1568 | every one-line key that starts with none of ; # [, has no equals sign and no blank at an end, is the key of the text that puts it before an equals sign and a value |
| `IniLines.KeyLine` | src/cpp/common/SimpleIni.h:1509-1568 | a key line yields its key and whatever its equals sign is followed by, and ends a header that is still open |
| `IniLines.HeaderIsRead` | src/cpp/common/SimpleIni.h:1471-1507 | a name in brackets is read as that header, with any white space before the name and blanks behind; the rest of the line does not matter |
| `IniLines.LineIsSkipped` | src/cpp/common/SimpleIni.h:1517-1527 | a line without equals sign, or one that starts with it, is passed over |
| `IniLines.UnclosedIsRead` | src/cpp/common/SimpleIni.h:1471-1507 | a '[' line without ']' takes the text up to the end of the next key into the section's name |
| `IniBlocks.CommentIsRead` | src/cpp/common/SimpleIni.h:1463-1468 | lines that start with ; or # are the comment of what follows, with the empty lines between them and newlines for their line breaks |
| `IniBlocks.UnclosedWithComment` | src/cpp/common/SimpleIni.h:1463-1507 | an open header takes the comment behind it into its name |
| `IniBlocks.BlockIsRead` | src/cpp/common/SimpleIni.h:1635-1755 | a multi-line value is its lines joined by newlines, whatever line breaks the text has, up to the line that reads like the tag or to the end of the text |
| `IniBlocks.BlockWithoutLines` | src/cpp/common/SimpleIni.h:1714-1733 | a block ended by its first line ends the parse when that is empty, and is misread otherwise |
| `IniBlocks.FileCommentIsRead` | src/cpp/common/SimpleIni.h:1416-1439 | the block that a text starts with is its lines that start with ; or #, up to the first other line |
| `IniAnyText.EntriesInCharacters` | src/cpp/common/SimpleIni.h:1443-1572 | in no text does a key start with ; # or [, hold an equals sign, or have a blank at an end; in single-line mode no value has one either; comments start with ; or #; and a section's name has a blank at its end only behind a comment on a last line of its own |
| `IniAnyText.NameEndsLikeComment` | src/cpp/common/SimpleIni.h:1463-1507 | such a name comes of a '[' line without ']' and a comment: it ends as the comment does, and is given for all such lines |
| `IniStore.Zones` | src/cpp/common/SimpleIni.h:1803-1838 | lower and upper bound of a name enclose exactly the entries equal to it |
| `IniStore.SetKeySorted` | src/cpp/common/SimpleIni.h:1834-1886 | every way of writing a key keeps the table sorted |
| `IniMultimap.GroupIsMatching` | src/cpp/common/SimpleIni.h:1834-1870 | the zone that find leads to holds all entries of the key, and nothing else |
| `IniMultimap.SetKeyMatching` | src/cpp/common/SimpleIni.h:1834-1886 | writing a key changes the list of that key as its mode says, and no other list |
| `IniMultimap.WrittenIs` | src/cpp/common/SimpleIni.h:1834-1886 | what comes out of writing a key: a first value makes the list, single keys change the value of the first entry, otherwise an entry is added at the end or takes the place of all others under the eldest's load order and comment |
| `IniMultimap.AddEntryIsMultimapWrite` | src/cpp/common/SimpleIni.h:1786-1887 | AddEntry writes one list of one section, makes the section known, and reports whether anything is new |
| `IniMultimap.AddEntryKeepsHeads` | src/cpp/common/SimpleIni.h:1800-1828 | a section keeps its spelling, comment and number; a new one takes the comment only when it comes alone |
| `IniMultimap.DeleteIsMultimapErase` | src/cpp/common/SimpleIni.h:2397-2453 | Delete empties exactly the lists asked for; the section goes with its last key only on request |
| `IniMultimap.AddEntryKeepsOrders` | src/cpp/common/SimpleIni.h:1818-1882 | live load orders stay distinct, at most the counter, above their section's and increasing inside a key, also under force-replace |
| `IniMultimap.DeleteKeepsOrders` | src/cpp/common/SimpleIni.h:2397-2453 | deletion keeps the load-order invariant |
| `IniMemory.CopyIsSound` | src/cpp/common/SimpleIni.h:1759-1782 | a copied string gets a block of its own that nobody else points to, and no text changes |
| `IniMemory.FreeIsSound` | src/cpp/common/SimpleIni.h:2457-2474 | freeing a pointer that is let go leaves every other pointer good |
| `Ini.SimpleIni.constructor` | src/cpp/common/SimpleIni.h:1194-1210 | a new store is empty and sound |
| `Ini.SimpleIni.Reset` | src/cpp/common/SimpleIni.h:1218-1237 | empties tables, text and blocks; the counter and the settings stay |
| `Ini.SimpleIni.SetMultiKey` | src/cpp/common/SimpleIni.h:501-503 | changes the mode and nothing that is stored |
| `Ini.SimpleIni.CopyString` | src/cpp/common/SimpleIni.h:1759-1782 | puts a fresh copy of the string into the owned blocks |
| `Ini.SimpleIni.DeleteString` | src/cpp/common/SimpleIni.h:2457-2474 | frees owned blocks only; strings of the loaded text stay |
| `Ini.SimpleIni.AddEntry` | src/cpp/common/SimpleIni.h:1786-1887 | the pointer-level AddEntry is the table-level one on the texts, and leaves memory sound |
| `Ini.SimpleIni.FindOldest` | src/cpp/common/SimpleIni.h:1840-1857 | the least load order of the group and the comment that goes with it |
| `Ini.SimpleIni.SetValue` | src/cpp/common/SimpleIni.h:936-945 | sets a caller's pair by copying it; keeps the store valid |
| `Ini.SimpleIni.Delete` | src/cpp/common/SimpleIni.h:2397-2453 | deletes the key group or the section with its strings, and leaves memory sound |
| `Ini.SimpleIni.EraseGroup` | src/cpp/common/SimpleIni.h:2414-2429 | frees and erases the whole key group one by one |
| `Ini.SimpleIni.GetValue` | src/cpp/common/SimpleIni.h:1891-1924 | the first value of the key, and whether there are more |
| `Ini.SimpleIni.GetAllValues` | src/cpp/common/SimpleIni.h:2060-2091 | all entries of the key in order of insertion, or the first one in single-key mode |
| `Ini.SimpleIni.GetAllKeys` | src/cpp/common/SimpleIni.h:2158-2185 | the first entry of each key of the section |
| `Ini.SimpleIni.GetSectionSize` | src/cpp/common/SimpleIni.h:2095-2126 | the number of different keys, case folded, or -1 without the section |
| `Ini.SimpleIni.GetAllSections` | src/cpp/common/SimpleIni.h:2145-2154 | all sections in table order |
| `Ini.SimpleIni.FindFileComment` | src/cpp/common/SimpleIni.h:1416-1439 | the leading comment becomes the file comment unless there is one |
| `Ini.SimpleIni.LoadEntry` | src/cpp/common/SimpleIni.h:1378-1382 | one turn of the loading loop adds the next entry of the text |
| `Ini.SimpleIni.Load` | src/cpp/common/SimpleIni.h:1322-1394 | loading adds exactly the entries of the pure parse to what is there, with pointers into the text or copies |
| `Ini.SimpleIni.Save` | src/cpp/common/SimpleIni.h:2241-2364 | writes the signature if asked to and the text of the store's document in load order |
| `Ini.WriteValue` | src/cpp/common/SimpleIni.h:2334-2348 | a value goes on its key's line, or as a block when it must |
| `Ini.OutputMultiLineText` | src/cpp/common/SimpleIni.h:2368-2393 | writes a text line by line |
| `Ini.TestMultiLineData` | src/cpp/common/SimpleIni.h:1589-1622 | decides whether a value does not survive on one line |
| `IniView.HeadsNameEachKeyOnce` | src/cpp/common/SimpleIni.h:2158-2185 | the listed keys name each case-folded key of the table exactly once |
| `IniView.SortByOrderSorts` | src/cpp/common/SimpleIni.h:331-339 | sorting by load order orders the list and loses nothing |
| `IniComments.ParseCommentLines` | src/cpp/common/SimpleIni.h:1635-1755 | printed comment lines are read back, with the blank lines between them where those are kept |
| `IniComments.CommentThere` | src/cpp/common/SimpleIni.h:1463-1468 | a printed comment of a section or value is what the parser takes for the comment of the next entry |
| `IniComments.FileCommentThere` | src/cpp/common/SimpleIni.h:1416-1439 | a printed file comment is the block that the text starts with |
| `IniComments.CommentIsGood` | src/cpp/common/SimpleIni.h:1463-1468 | whatever the parser takes for a comment, in any text, can be printed and read back |
| `IniReparse.ParseHeader` | src/cpp/common/SimpleIni.h:1471-1507 | a printed section line parses to its name, with the comment met before it |
| `IniReparse.ParseValue` | src/cpp/common/SimpleIni.h:1537-1565 | a printed value is read back, on one line or as a block |
| `IniReparse.ParsePair` | src/cpp/common/SimpleIni.h:1509-1568 | a printed pair parses to its key and value, with the comment and the open header met before it |
| `IniReparse.ParseDoc` | src/cpp/common/SimpleIni.h:1443-1572 | the printed text of any plain document, comments included, parses to exactly the entries of the document it becomes, behind that one's file comment |
| `IniReparse.ReloadedIsPlain` | src/cpp/common/SimpleIni.h:124-139 | what a document becomes is plain and becomes nothing else; it is the document itself exactly when no section's comment starts the text |
| `IniRoundTrip.DocKeysOfNewKey` | src/cpp/common/SimpleIni.h:1877-1882 | a new key is listed behind all keys loaded before it |
| `IniRoundTrip.DocKeysOfNextValue` | src/cpp/common/SimpleIni.h:1873-1886 | a further value of a key is listed behind its other values |
| `IniRoundTrip.StoreDocIsProper` | src/cpp/common/SimpleIni.h:2254-2361 | the document of any sorted store names each section and each key once, with one value per key in single-key mode |
| `IniRoundTrip.LoadInvertsSave` | src/cpp/common/SimpleIni.h:1322-1394 | the parser inverts the printer on all documents with proper names, values and comments: loaded into an empty store, the text shows the document it becomes, and the same one exactly when no section's comment leads |
| `IniRoundTrip.SaveLoadSave` | src/cpp/common/SimpleIni.h:2241-2364 | text fixed point in both key modes, with comments: saving what was loaded from a saved text writes the same text, from the first round on or from the second |
| `IniNormalise.EntriesAreGood` | src/cpp/common/SimpleIni.h:1509-1568 | every key name and every comment that the parser finds in any text, and in single-line mode every value, is one that the printer can write back |
| `IniValues.LineValueIsGood` | src/cpp/common/SimpleIni.h:1537-1558 | in single-line mode every value that is read is one that can be written back |
| `IniValues.BlockSurvivesIff` | src/cpp/common/SimpleIni.h:1635-1755 | a printed block gives its value back exactly when the value has no carriage return and no line that reads like the end tag |
| `IniValues.ValueSurvivesIff` | src/cpp/common/SimpleIni.h:1537-1565 | in either mode a printed value is read back, with the cursor behind it, exactly when it has one of the shapes of GoodValue |
| `IniValues.TagInOtherCaseIsLost` | src/cpp/common/SimpleIni.h:1714-1717 | a value with the line si-end-of-multiline-text comes back as its first, empty line only |
| `IniCharacters.ValueComesBackIff` | src/cpp/common/SimpleIni.h:1537-1565 | in characters, in either mode: the values that a saved text gives back are those on one line without blanks at the ends, in multi-line mode without a leading <<<, and there also all others without carriage return and without a line of 24 characters that spells the end tag in any case |
| `IniCharacters.ValueInCharacters` | src/cpp/common/SimpleIni.h:2344-2357 | a value without line breaks and without blanks at its ends is written as itself, and so is every value in single-line mode; every other value is written as a block with its tags |
| `IniCharacters.KeyInCharacters` | src/cpp/common/SimpleIni.h:1509-1535 | the keys that survive are those on one line, without equals sign and blanks at the ends, that start with none of ; # [ |
| `IniCharacters.SectionInCharacters` | src/cpp/common/SimpleIni.h:1471-1507 | the section names that survive are those on one line without closing bracket and blanks at the ends |
| `IniCharacters.CommentInShape` | src/cpp/common/SimpleIni.h:1463-1468 | the comments that survive are those whose lines start with ; or #, but for empty ones inside |
| `IniCharacters.FileCommentInShape` | src/cpp/common/SimpleIni.h:1416-1439 | the file comments that survive are those whose lines all start with ; or # |
| `IniCharacters.PairInCharacters` | src/cpp/common/SimpleIni.h:2326-2357 | a pair is written as its comment on lines of its own behind an empty one, then key, sign and value on a line |
| `IniCharacters.HeadInCharacters` | src/cpp/common/SimpleIni.h:2272-2303 | a section is headed by two empty lines unless it comes first, its comment and its name in brackets |
| `IniCharacters.DocumentInCharacters` | src/cpp/common/SimpleIni.h:2254-2361 | the saved text of two sections with a pair each and any comments, character by character |
| `IniCharacters.SectionsTogether` | src/cpp/common/SimpleIni.h:2270-2361 | the text of many sections is the texts of its parts, one behind the other |
| `IniNormalise.LoadedTextIsPlain` | src/cpp/common/SimpleIni.h:1322-1394 | what any text with closed, named headers loads to can be printed and read back |
| `IniNormalise.EveryTextNormalises` | src/cpp/common/SimpleIni.h:2241-2364 | load, save, load of such a text shows the document it becomes, the same one exactly when no section's comment leads, and the next round changes nothing |
| `IniRuns.RunKeepsOrders` | src/cpp/common/SimpleIni.h:1818-1882 | after any run of sets, deletions, loads, mode changes and resets the tables are sorted, the load-order invariant holds and the counter has not gone back |
| `IniRuns.RunKeepsSingle` | src/cpp/common/SimpleIni.h:1834-1886 | a store that never allows multiple keys never holds two entries of one key |
| `IniRuns.SetValueIsShown` | src/cpp/common/SimpleIni.h:483-503 | with single keys a value that is set is the one shown, and no other key shows anything else |
| `IniRuns.LastValueWins` | src/cpp/common/SimpleIni.h:483-503 | loading with single keys shows for every key the last value in the text |
| `IniRuns.SwitchingOffShowsFirst` | src/cpp/common/SimpleIni.h:483-503 | of two values stored while keys may repeat, the first is shown once they may not |
| `IniRuns.SwitchingOffShowsYoungestIff` | src/cpp/common/SimpleIni.h:1891-1924 | switching multiple keys off shows the youngest value exactly when the first is the same as the last |
| `IniRuns.GoodRunKeepsNamed` | src/cpp/common/SimpleIni.h:1786-1887 | operations that use proper names, values and comments leave a store whose document can be printed and read back |
| `IniRuns.PayloadIsSavedText` | src/cpp/common/SimpleIni.h:1333-1339 | Load sees the printed text, except when the signature was left out and the text starts like one |
| `IniFiles.PayloadInCharacters` | src/cpp/common/SimpleIni.h:1333-1339 | the bytes EF BB BF at the start of a UTF-8 file are passed over, and nothing else ever is |
| `IniFiles.FileCommentInCharacters` | src/cpp/common/SimpleIni.h:1416-1439 | the lines that start with ; or # at the start of a text become the file comment of a store without one; a store that has one keeps it, and the entries are read from the start |
| `IniFiles.EffectiveInCharacters` | src/cpp/common/SimpleIni.h:1443-1456 | a text ends at its first NUL |
| `IniFiles.SectionIsRead` | src/cpp/common/SimpleIni.h:1443-1572 | a comment belongs to the header behind it and to nothing further, and the header names the section of the pairs behind it |
| `IniFiles.UnclosedSectionIsRead` | src/cpp/common/SimpleIni.h:1471-1507 | the name of a '[' line without ']' is the section of all pairs behind it, not of its own key only |
| `IniRuns.EveryRunRoundTrips` | src/cpp/common/SimpleIni.h:1322-1394 | whatever run of such operations led to a store, its saved text loads back to the document that its document becomes, with comments, and the same one exactly when no section's comment leads |
| `IniRuns.Perform` | src/cpp/common/SimpleIni.h:1322-1394 | a call of the class is one step of a run |
| `IniRuns.SaveAndLoad` | src/cpp/common/SimpleIni.h:2241-2364 | one SimpleIni saved and loaded into a new one: the copy shows the document that the first one's becomes |
| `IniConverse.FoundName` | src/cpp/common/SimpleIni.h:1471-1507 | a pair without comment has the section in force, or the name of an unclosed '[' line up to the end of its key |
| `IniConverse.QuietReads` | src/cpp/common/SimpleIni.h:1471-1507 | such a name, printed as a header, is read back longer: up to the first key of its section |
| `IniConverse.AllCreated` | src/cpp/common/SimpleIni.h:1800-1828 | every section of a loaded store was created by an entry of the text and keeps the comment that came with its first key |
| `IniConverse.ReturnsIff` | src/cpp/common/SimpleIni.h:1322-1394 | in single-line mode a document without comments, of any names, keys and values, is shown again by its own text exactly when all of them have proper shapes |
| `IniConverse.SaveLoadIff` | src/cpp/common/SimpleIni.h:2241-2364 | the same for what any store shows |
| `Base64.AlphabetIsBase64` | src/cpp/utils/base64.cpp:6-15 | is_base64 takes exactly the characters of the table; pad, NUL and white space are none of them |
| `Base64.SextetOfSymbol` | src/cpp/utils/base64.cpp:73-74 | looking a symbol up in the table gives its index back |
| `Base64.WholeOfSextets` | src/cpp/utils/base64.cpp:17-116 | decoding the sextets of any bytes gives the bytes, with nothing slopping over |
| `Base64.SextetsOfWhole` | src/cpp/utils/base64.cpp:178-292 | sextets that end on a byte and slop over nothing are the encoding of what they decode to |
| `Base64.BitsAreKept` | src/cpp/utils/base64.cpp:60-113 | the bits of sextets are the bits of their whole bytes followed by the slop |
| `Base64.SextetsSpellTheBits` | src/cpp/utils/base64.cpp:17-58 | the sextets of data spell its bits, filled up with zeros to a multiple of six |
| `Base64.EncodedLength` | src/cpp/utils/base64.cpp:17-58 | four characters for every three bytes begun |
| `Base64.EncodeInCharacters` | src/cpp/utils/base64.cpp:6-58 | each sextet is written as the character of its number in A-Z a-z 0-9 + /, then as many equals signs as bytes are missing in the last group of three |
| `Base64Codec.EncodeString` | src/cpp/utils/base64.cpp:17-58 | base64_encode computes the RFC 4648 encoding |
| `Base64Codec.Ntop` | src/cpp/utils/base64.cpp:118-176 | base64_ntop writes the same text and a NUL, succeeds exactly when both fit, and touches nothing beyond the target |
| `Base64Codec.DecodeString` | src/cpp/utils/base64.cpp:60-116 | base64_decode yields the whole bytes of the leading alphabet run; the caller's buffer gets the same bytes, its length only when there is one |
| `Base64Codec.DecodedBits` | src/cpp/utils/base64.cpp:70-113 | on any string the result is the floor(3k/4) bytes in the top bits of the run of k sextets |
| `Base64Codec.DecodeInvertsEncode` | src/cpp/utils/base64.cpp:17-116 | base64_decode inverts the encoders on all data |
| `Base64Codec.Pton` | src/cpp/utils/base64.cpp:178-292 | base64_pton computes the strict decoding of the text without white space and never touches the target beyond its size |
| `Base64Codec.StrictIsCanonical` | src/cpp/utils/base64.cpp:178-292 | with a target the strict decoder yields some bytes exactly when the stripped text is their encoding and the target has n, or for a partial group n+1, places |
| `Base64Codec.StrictInvertsEncode` | src/cpp/utils/base64.cpp:183-239 | the strict decoder inverts the encoder for any white space put in, exactly when there is room |
| `Base64Codec.WithoutTargetIff` | src/cpp/utils/base64.cpp:178-292 | without a target a text is the encoding of what it decodes to exactly when its slop bits are zero |
| `Base64Codec.WithoutTargetSlopPasses` | src/cpp/utils/base64.cpp:279 | without a target the slop bits are not looked at: QR== is taken though it is no encoding |
| `Base64Codec.EncodedIsStripped` | src/cpp/utils/base64.cpp:118-176 | an encoding has no white space and no NUL in it |
| `Base64Codec.StripInCharacters` | src/cpp/utils/base64.cpp:187 | the white space that is skipped is space, tab, LF, VT, FF and CR, and nothing else |
| `Utf.GatherInvertsForm` | src/cpp/utils/ConvertUTF.c:84-99 | adding up the bytes and subtracting the offset inverts the shifts and masks for all forms of two to six bytes |
| `UtfShortest.ShortestForm` | src/cpp/utils/ConvertUTF.c:172-192 | the UTF-8 of a code point means it, by the bits of RFC 3629, and every other sequence of a first byte and continuation bytes that means it is longer |
| `UtfShortest.NoShorterSpelling` | src/cpp/utils/ConvertUTF.c:231-239 | no shorter sequence adds up to the code point in the other converter |
| `UtfShortest.GatherIsMeaning` | src/cpp/utils/ConvertUTF.c:86-99 | adding up the bytes of any such sequence and subtracting the offset gives what its bits mean, in shortest form or not |
| `Utf.JoinedInNumbers` | src/cpp/utils/ConvertUTF.c:162-169 | a surrogate pair counts on from U+10000, the high one in steps of 0x400 |
| `Utf.SplitJoined` | src/cpp/utils/ConvertUTF.c:162-169 | splitting a joined surrogate pair gives the pair back |
| `Utf.SplitIsSurrogates` | src/cpp/utils/ConvertUTF.c:256-263 | a code point beyond the first plane splits into a high and a low surrogate that join to it |
| `Utf.PartsAreWhole` | src/cpp/utils/ConvertUTF.c:279-384 | no part of a decomposed character is decomposable again, and none is NUL or a colon |
| `UtfComposed.DecomposedIffComposed` | src/cpp/utils/ConvertUTF.c:279-384 | a character is taken apart into a letter and a mark exactly when these compose to it, for Latin-1 and both kana |
| `UtfComposed.PiecesAreDistinct` | src/cpp/utils/ConvertUTF.c:279-384 | no two characters have the same parts |
| `UtfComposed.MarkInBothCases` | src/cpp/utils/ConvertUTF.c:279-325 | a capital letter and its small one have the same mark or none |
| `UtfConvert.AtMostFourBytes` | src/cpp/utils/ConvertUTF.c:172-179 | on what UTF-16 can hold, the five-byte, six-byte and replacement branches are not reached |
| `UtfConvert.Switch` | src/cpp/utils/ConvertUTF.c:185-192 | the falling-through switch writes its bytes backwards from the end and nothing else |
| `UtfConvert.FallThroughIsForm` | src/cpp/utils/ConvertUTF.c:185-192 | what the switch writes is the UTF-8 form of that length |
| `UtfConvert.Utf16ToUtf8` | src/cpp/utils/ConvertUTF.c:132-200 | writes the UTF-8 of as many surrogate-paired code points as fit, slash as colon and NULs dropped, and never beyond the end of the target |
| `UtfConvert.Fit8All` | src/cpp/utils/ConvertUTF.c:150-183 | the conversion succeeds exactly when each code point finds its room |
| `UtfConvert.SucceedsIff` | src/cpp/utils/ConvertUTF.c:150-183 | that is, exactly when all bytes fit, a NUL at the very end taking the room of one |
| `UtfConvert.SentBytes` | src/cpp/utils/ConvertUTF.c:150-158 | on the way to UTF-8 slash becomes colon, NUL goes, and every other code point keeps its form |
| `UtfConvert.ReceivedUnits` | src/cpp/utils/ConvertUTF.c:216-265 | on the way back colon becomes slash, the basic plane is decomposed, the planes beyond become pairs, and all above U+10FFFF the replacement character |
| `UtfConvert.ThreeBytesPerUnit` | src/cpp/utils/ConvertUTF.c:172-196 | three bytes a unit are always enough |
| `UtfConvert.AddUp` | src/cpp/utils/ConvertUTF.c:231-238 | the second falling-through switch adds up its bytes six bits apart |
| `UtfConvert.CharsAndRemains` | src/cpp/utils/ConvertUTF.c:211-230 | any source is its characters, as their first bytes announce them, and what remains |
| `UtfConvert.CutOffIsSeenIff` | src/cpp/utils/ConvertUTF.c:227-230 | a character cut off by the end of the source is noticed exactly when at least two of its bytes are missing |
| `UtfConvert.Utf8ToUtf16` | src/cpp/utils/ConvertUTF.c:204-270 | for bytes of any kind: writes the decomposed units of the characters as far as they fit, and tells a cut-off source from a full target |
| `UtfConvert.FitCharsAll` | src/cpp/utils/ConvertUTF.c:241-265 | it finds room for all exactly when all units fit |
| `UtfConvert.CutIsFront` | src/cpp/utils/ConvertUTF.c:241-265 | a character that does not fit leaves the front of its units up to the end of the target, but never half of a surrogate pair |
| `UtfConvert.SpeltIsRead` | src/cpp/utils/ConvertUTF.c:211-239 | a source that spells code points up to 0x7FFFFFFF is read as their forms, and its units are their UTF-16 |
| `UtfConvert.OutputIsSource` | src/cpp/utils/ConvertUTF.c:132-270 | the first converter's output is read by the second without remainder, and its units are the round trip of the units that went in |
| `UtfConvert.BackIsIdentity` | src/cpp/utils/ConvertUTF.c:132-384 | UTF-16 to UTF-8 and back is the identity exactly on units without NUL, colon and composed characters, unpaired surrogates included |
| `UtfConvert.NormalisationIsStable` | src/cpp/utils/ConvertUTF.c:218-384 | converted UTF-8 comes back from a second round unchanged exactly when it has no NUL |

## Left out

- File reading and writing, streams, the IniFile wrappers and the output writer classes: I/O around the core.
- The MBCS, ICU and Win32 converters and the wide-character instantiations: the char instantiation with the identity converter is modelled; characters compare as unsigned bytes.
- Allocation failure (SI_NOMEM) and overflow of the load-order counter.
- GetLongValue, GetBoolValue and their setters, GetSection, and the iterator interface.
- A NULL section argument of SetValue, which the program dereferences; the getters and Delete take one.
- Ini.SimpleIni.Load: texts with a multi-line block whose tag line follows at once are excluded, and so from runs; IniScan.LoadMultiLineText and IniScan.BodylessReadsOn state what the parser does there. The value then points into text that the parser goes on to write into, so it is whatever the next planted NUL leaves of it.
- IniNormalise.EveryTextNormalises: texts with unclosed or empty '[' headers, and in multi-line mode with values that the end tag or a leading "<<<" would cut, are not covered; what they load to comes back as IniConverse.SaveLoadIff and IniValues.ValueSurvivesIff say.
- IniConverse.ReturnsIff: multi-line mode and documents with comments are covered in one direction only, by IniRoundTrip.LoadInvertsSave.
- The loaded text is a snapshot that the store takes as the parser goes on, from the start of Load, and owned blocks are a map from numbers to strings, so freeing is removal from the map.
- A value overwritten in single-key mode and a replaced comment stay in the owned blocks until Reset, as in the program.
- std::map and std::multimap are sorted sequences, find the lower and insert the upper bound; std::list::sort is an insertion sort by number alone: the tie-break by name never comes to bear, since numbers are distinct.
- The temporary NUL that OutputMultiLineText plants and restores in the caller's text.
- The sharing of one array for characters and indices in base64_decode: two arrays are used.
- size_t and int widths: targets and texts beyond 2^31 bytes, where the casts to int wrap.
- UtfConvert.Utf8ToUtf16: sources that end with a character just one byte short are excluded, because the code reads on behind the source; and targets that are exactly full before an ASCII byte, because the code stores those unchecked.
- The lock's counter is unbounded, thread identifiers are not zero, and memory accesses are sequentially consistent words; a Leave without an Enter is not made, as CSLocker guarantees.
- The Win32 branch of the lock.
- DestroyObject, ProcessingObjects, Clear and assignment of ObjectManager, which add only easy members; its operations run under the lock, so they are modelled one at a time.
- GetExistingModules is an arbitrary argument and messages to other modules are returned.
- Console, processes, services, signals, sockets, logging, GUIDs and vendored libraries.
