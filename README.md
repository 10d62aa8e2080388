# Student records of `main.c`, modelled in Dafny

`main.c` is a terminal program for managing student records ("Sistem
Pendataan Siswa"). It keeps the records in a singly linked list of
`StudentEntry` nodes. It can find, add, edit and delete records. It saves
the list to a `PDSiswa1` text file and loads it back. This project models
that core and proves what it promises:

- `util.dfy` (module `Util`): `Option`, C-style truncation (`strncpy`),
  `toupper`, and sequence reversal with its lemmas.
- `records.dfy` (module `Records`): the record and its three contacts.
  - The contact invariant: a contact named `"-"` has the phone `"-"`.
  - The record `addStudent` builds from its answers.
  - The field edits of `editStudent`.
- `validation.dfy` (module `Validation`): the rules of the prompt
  routines, one pass each.
  - `getInput`: the filter and the fallback.
  - `getInputPhone`: the phone alphabet and the leading `+`.
  - `getInputDate`: the calendar rule.
- `registry.dfy` (module `Registry`): the list as a sequence of records.
  - The first-match lookup of `findStudent`.
  - The unlinking of `deleteStudent`.
  - What adding, editing and deleting keep: unique NISNs (student ID
    numbers) and consistent contacts.
- `store.dfy` (module `Store`): the linked list itself, as the class
  `StudentList` over `Node` objects. Its methods walk and relink the
  nodes exactly as the C functions do:
  - `findStudent`, `addStudent`, `deleteStudent`, `clearStudents` and
    `editStudent`;
  - the writing loop of `saveData`;
  - the reading loop of `loadData`, which pushes each record on the
    front, and the loop that then reverses the list in place.

  Each method is proved against the sequence-level definitions. A
  `Reload` method saves a list and loads the saved text back.
- `codec.dfy` (module `Codec`): the `PDSiswa1` format. It is a header
  line, then thirteen lines per record.
  - Writing: `fprintf` of `%s`, `%c` and `%d-%d-%d`.
  - Reading: each field from a line of its own, keeping at most the width
    of its `fscanf` conversion. Where the scanner reads differently (a
    field that starts with white space, a line longer than its width),
    the model states the difference.
  - The round trip: loading a saved list gives the same list, in the
    same order.
- `save_path.dfy` (module `SavePath`): the dialogue of `saveData`.
  - The suggested path: `data_siswa.irf`, renumbered to
    `data_siswa_1.irf`, `data_siswa_1_1.irf`, … while a file of that
    name exists.
  - The path prompt.
  - The overwrite question.

Terminal input, files and the file system are parameters:

- each prompt gets the line the user typed;
- a file to load is its text, or None when it cannot be opened;
- the paths that exist are a set of strings.

Strings are sequences of characters, each standing for one byte of the C
string, so every width is a count of bytes. Text in a multi-byte encoding
is its sequence of bytes.

## Model

| member | source | states |
|---|---|---|
| Util.Take | main.c:76-79 | `strncpy` into a zeroed buffer keeps the first `n` characters, or the whole string when it is shorter |
| Util.ToUpper | main.c:201 | `toupper` shifts only 'a'..'z', by 32 |
| Util.Reverse | main.c:573-585 | the reversal has the length of the original |
| Util.ReverseAt | main.c:573-585 | entry `k` of the reversal is entry `n - 1 - k` of the original |
| Util.ReverseSnoc | main.c:524-530 | pushing a new record on the front of the reversed accumulator is the reversal of the records read so far |
| Util.ReverseReverse | main.c:573-585 | reversing the accumulated list once more restores the original order |
| Util.ReverseMultiset | main.c:573-585 | reversal keeps the length and every element with its multiplicity |
| Records.NewEntry | main.c:181-251 | the stored record is consistent; it keeps the NISN, name, birth place, date, address and phone; its sex letter is upper-cased; contacts with a name keep their answers; contacts named "-" get the phone "-" |
| Records.AdmitContact | main.c:215-243 | the stored contact is consistent and keeps its name; a named contact keeps its phone; a contact that was already consistent is kept as it is |
| Records.NewEntryKeepsNormalRecord | main.c:199-243 | a record that already has an upper-case sex and consistent contacts is stored exactly as given |
| Records.ApplyEdit | main.c:348-426 | no edit changes the NISN or the sex; a contact edit changes only that contact; every other edit leaves all contacts unchanged |
| Records.EditKeepsConsistency | main.c:344-426 | every edit keeps the contact invariant, except a phone edit on a nameless contact answered with the name "-" |
| Records.ClearingNameClearsPhone | main.c:370-376 | clearing a present contact name with an empty answer also sets its phone to "-", and the other contacts stay as they were |
| Records.PhoneEditCanBreakContact | main.c:378-387 | a consistent record whose father has no name becomes inconsistent after the phone edit with the name "-" and the phone "0812" |
| Validation.Span | main.c:84 | `strspn`: the longest prefix made of allowed characters, ending at the first character that is not allowed |
| Validation.IndexOf | main.c:155 | `strchr`: None exactly when the character is absent, otherwise its first position |
| Validation.Accept | main.c:67-94 | an empty line takes the truncated fallback if there is one, and is otherwise refused; a non-empty line is accepted iff there is no filter or every character is in the filter, and the value is the line cut to `max_length` |
| Validation.AcceptPhone | main.c:142-159 | an empty line gives "-"; a non-empty line is accepted iff every character is in "+0123456789" and no '+' follows the first character within the 31 kept; the value is "-" or a phone number |
| Validation.AcceptedNisnIsDigits | main.c:187-188 | an accepted NISN has 1 to 10 decimal digits |
| Validation.StoredSexIsLOrP | main.c:199-201 | the accepted sex answer, upper-cased, is 'L' or 'P' |
| Validation.MaxDayAfter | main.c:120-128 | for months 2, 4, 6, 9 and 11, `max_day` becomes the length of the month in the Gregorian calendar; for every other month it keeps the value of the previous pass |
| Validation.LeapRuleAgrees | main.c:126 | the leap-year test of the code is the Gregorian rule, for every year |
| Validation.DateAttemptAsWritten | main.c:106-139 | one pass of `getInputDate`: the `max_day` left for the next pass is the month's length for months 2, 4, 6, 9 and 11 and the old value for the others; a pass that starts from 31 accepts exactly the calendar dates |
| Validation.DateAcceptedIsCalendarDate | main.c:111-131 | a first pass accepts a date iff it is a Gregorian calendar date (both directions) |
| Validation.LeapYearExamples | main.c:120-131 | 29-2-2000, 29-2-2024, 30-4-2023 and 31-1-2023 are accepted; 29-2-1900, 29-2-2023, 31-4-2023, 0-1-2023 and 1-13-2023 are refused |
| Validation.MaxDayCarriesOver | main.c:111-131 | after 31-4-2023 is refused, the valid 31-1-2023 is refused on the next pass |
| Registry.Locate | main.c:162-178 | the position of the first entry whose NISN equals the key, with no match before it; None iff no entry matches |
| Registry.RemoveFirst | main.c:255-294 | the list without the first entry for the key, the others in their order; the list unchanged when the key is absent |
| Registry.RemoveFirstTakesOutFound | main.c:255-294 | deleting a present key shortens the list by one and removes exactly the entry found (multiset) |
| Registry.RemoveFirstAt | main.c:255-294 | entry `j` after the deletion is old entry `j` before the removed position and old entry `j + 1` from it on |
| Registry.AddThenFind | main.c:181-251 | after prepending a record with a new NISN, a lookup of that NISN finds it at the front; unique NISNs and consistent contacts are kept |
| Registry.DeleteThenFindFails | main.c:255-294 | with unique NISNs, a deleted key is no longer found |
| Registry.DeleteKeepsUniqueKeys | main.c:255-294 | deleting keeps the NISNs unique |
| Registry.DeleteKeepsAllConsistent | main.c:255-294 | deleting keeps every contact consistent |
| Registry.EditKeepsUniqueKeys | main.c:344-426 | editing an entry in place keeps the NISNs unique |
| Registry.EditKeepsAllConsistent | main.c:344-426 | editing an entry keeps every contact consistent unless the edit is the one that breaks a contact |
| Registry.Edited | main.c:297-439 | an unknown NISN or a cancel leaves the list as it was; a field edit keeps the length and the position of the key, and changes no other entry; a deletion shortens the list by one |
| Registry.EditedKeepsUniqueKeys | main.c:297-439 | every menu answer keeps the NISNs unique |
| Registry.EditedKeepsAllConsistent | main.c:297-439 | every menu answer keeps the contacts consistent, except the contact-breaking phone edit |
| Registry.DeleteHeadByOwnKey | main.c:483-487 | deleting by the head's own NISN finds position 0 and leaves the rest of the list |
| Codec.NatToStringDigits | main.c:666-669 | `%d` of a non-negative number prints only decimal digits |
| Codec.NatToString | main.c:666-669 | `%d` of a natural number prints at least one character |
| Codec.IntToString | main.c:666-669 | `%d` prints a leading '-' iff the number is negative, and only digits after it |
| Codec.DateLine | main.c:666-669 | the date line is made only of digits and dashes |
| Codec.ScanInts | main.c:542-545 | the chained conversions read at most `count` values; none iff no value is asked for or the first `%d` fails; the first value is that of the first `%d` |
| Codec.ScanInt | main.c:542-545 | a `%d` that succeeds reads at least one character and stops right after the last digit it read |
| Codec.NoDigitNoInt | main.c:542-545 | `%d` reads nothing where no digit follows |
| Codec.ScanDate | main.c:542-545 | a line without a digit leaves the zeroed date 0-0-0 |
| Codec.ScanIntAt | main.c:542-545 | `%d` at a printed integer followed by '-' or the end of line reads back the same value and stops after it |
| Codec.DateLineScans | main.c:542-545 | a date printed with `%d-%d-%d` scans back to the same date, negative fields included |
| Codec.Text | main.c:658-684 | the text of no lines is empty; otherwise it ends with the newline of its last line |
| Codec.SplitLines | main.c:524-570 | a text is cut into no lines iff it is empty, and no line holds a newline |
| Codec.SplitText | main.c:658-684 | the lines written one `%s\n` at a time split back into the same lines when none holds a newline |
| Codec.EncodeRecord | main.c:663-682 | a record is written as thirteen lines |
| Codec.Blocks | main.c:660-684 | the records take thirteen lines each |
| Codec.Encode | main.c:658-684 | a saved file is the header "PDSiswa1" followed by thirteen lines per record |
| Codec.EncodeLayout | main.c:658-684 | line `f` of record `k` is line `1 + 13k + f` of the file |
| Codec.BlocksSnoc | main.c:660-684 | writing one more record appends its thirteen lines |
| Codec.EncodePrefix | main.c:660-684 | the file for the first `i + 1` records is the file for the first `i`, followed by record `i` |
| Codec.ReadText | main.c:534-535 | a string field read from its line keeps at most `width` characters from its start, and the whole line when it fits; at end of input it copies the previous string read |
| Codec.ReadChar | main.c:537 | `%c` reads the first character of the line, the newline of an empty line, or leaves '\0' at end of input |
| Codec.ReadDate | main.c:542-545 | the date is the scan of its line, or 0-0-0 at end of input |
| Codec.DecodeBlock | main.c:524-570 | the NISN read never exceeds ten characters, and a complete block gives a record whose fields all fit their widths |
| Codec.DecodeBody | main.c:524-570 | no lines give no records, and lines give at least one record |
| Codec.DecodeBodyLength | main.c:524-570 | one record per block begun: `n` lines give the records of `ceil(n / 13)` blocks |
| Codec.Decode | main.c:515-570 | the header counts as correct iff the file's first line is "PDSiswa1"; an empty file gives no records |
| Codec.DecodeBodyAppend | main.c:524-570 | lines made of whole blocks decode independently of the lines that follow them |
| Codec.DecodeBodySnoc | main.c:524-570 | reading the next block appends its record to the records read so far |
| Codec.DecodeEncodedRecord | main.c:524-570 | the thirteen lines of a record whose fields fit their widths read back as that record, leading white space included |
| Codec.DecodeBlocks | main.c:524-570 | the saved blocks of records that fit their widths read back as the same records, in order |
| Codec.ScanSet | main.c:524 | `%<width>[^\n]` reads 1 to `width` characters up to the next newline and stops after them; it fails exactly at a newline or at the end of the text |
| Codec.ScannedName | main.c:524-535 | a name conversion that succeeds after the NISN, once the `\n` directive has skipped white space, never reads a name starting with white space; None means a conversion failed (the stale buffer then stored is not modelled) |
| Codec.TextStart | main.c:662-664 | the text of a record starts with its NISN, name and sex lines |
| Codec.ScanPastBlankLine | main.c:524-535 | after the NISN "1", a following line of three spaces is skipped and the line after it is read as the name |
| Codec.BlankNameShifts | main.c:524-535 | a name of three spaces, accepted by the name prompt, is read back as the sex line "L" |
| Codec.LoadAnyHeader | main.c:515-570 | loading a saved list gives it back whatever single-line header the file has, and the header counts as correct only when it is "PDSiswa1" |
| Codec.RoundTrip | main.c:515-585 | loading the text that saving writes gives back the same list in the same order, with the header accepted, when every record is storable |
| Store.Node.constructor | main.c:37-41 | a new entry holds the given record and link |
| Store.ChainReversed | main.c:573-585 | nodes whose links all point one step back form the chain of the reversed records, over the same nodes, headed by the old last node |
| Store.ReadRecord | main.c:524-570 | one pass of the reading loop consumes a block (thirteen lines, or what is left) and appends its record to the records of the lines read so far |
| Store.StudentList.constructor | main.c:693 | the program starts with an empty list |
| Store.StudentList.Find | main.c:162-178 | null iff no entry has the NISN; otherwise the node of the first match and its record |
| Store.StudentList.Add | main.c:181-251 | a taken NISN changes nothing; otherwise the new entry built from the answers is linked in at the front of the old list |
| Store.StudentList.Push | main.c:245-247 | a fresh node holding the record becomes the head; the nodes and the records are the new one followed by the old ones |
| Store.StudentList.Delete | main.c:255-294 | the records become the old ones without the first match for the key; no node is added |
| Store.StudentList.UnlinkFirst | main.c:266-267 | the head moves to its successor; the records lose the first one |
| Store.StudentList.UnlinkAfter | main.c:268-269 | the predecessor links past the entry; the records lose that entry |
| Store.StudentList.Clear | main.c:483-487 | deleting the head by its own NISN until none is left empties the list |
| Store.StudentList.EditStudent | main.c:297-439 | found iff the NISN is present; the records become `Edited(old records, NISN, answer)` |
| Store.StudentList.Rewrite | main.c:348-426 | editing the found entry in place changes that record and no other |
| Store.StudentList.Save | main.c:658-684 | the lines written are the header followed by each record's thirteen lines, in list order |
| Store.StudentList.Load | main.c:496-594 | a file that cannot be opened leaves an empty list; otherwise the header flag and the records are those of `Decode` of the text, in file order |
| Store.StudentList.PushBlocks | main.c:524-570 | after the reading loop the list holds the decoded records in reverse file order |
| Store.StudentList.ReverseLinks | main.c:573-585 | relinking every node in place makes the records the reversal of the old ones, and the nodes the old nodes in reverse order |
| Store.StudentList.Relink | main.c:585 | once every link points back, making the last node visited the head gives a valid list whose nodes and records are the reversal of the visited ones |
| Store.Reload | main.c:496-594 | saving a list of storable records and loading the saved text gives a list with the same records, in the same order, and the correct header |
| SavePath.Renumber | main.c:621 | the last four characters are replaced by "_1.irf" |
| SavePath.RenumberCandidate | main.c:611-623 | the default name is candidate 0, and renumbering candidate `k` gives candidate `k + 1`, so the name only ever grows by "_1" |
| SavePath.FirstFree | main.c:611-623 | the first candidate from `k` on that does not exist, with every candidate before it existing; candidate 54 (122 characters) is the last one tried |
| SavePath.SuggestionIsFirstFree | main.c:611-623 | the default name is suggested when it is free; otherwise the first free renumbering, or the longest one when every shorter one exists |
| SavePath.Suggest | main.c:606-624 | the suggestion is the last loaded path if there is one, and otherwise the first free candidate |
| SavePath.ChosenPath | main.c:626-628 | an empty answer takes the suggestion; any other answer is the path; each is cut to 127 characters |
| SavePath.OverwriteAnswer | main.c:640-646 | an empty answer cancels; a non-empty answer is accepted iff it is made of "yYtT"; it goes ahead iff it starts with 'y' or 'Y' |
| SavePath.OverwriteExamples | main.c:640-646 | "y" and "Y" go ahead; "t", "" and "ty" cancel; "yes" and "n" are asked again; "yT" goes ahead |
| SavePath.Proceeds | main.c:630-648 | the question is asked only for an existing file that is not the suggested one; otherwise saving goes ahead |
| SavePath.ExistingFileNeedsYes | main.c:630-648 | an existing file is overwritten only when it is the suggested one or the answer starts with 'y' or 'Y' |
| SavePath.SaveData | main.c:597-688 | the file is written iff the overwrite rule lets it through, and then at the chosen path with the lines of the list in list order |

## Left out

- Terminal interaction is not modelled: the prompts and messages, the menu loop of `main` (main.c:690-737) and the display-only `viewStudent` (main.c:442-480). Each prompt receives the line the user typed, with its newline already removed, and the retry loops are modelled one pass at a time.
- The numbered edit menu (main.c:341-430) is not modelled. Its answer is already the datatype `MenuChoice`: a field edit, delete, or cancel for 13 and any other number.
- `getInputDate`: the `scanf("%d-%d-%d")` of the typed line is not modelled. The pass receives the three numbers; a field that fails to parse keeps its value from the previous pass.
- Manual memory management is not modelled: `calloc`, `free` and `allocateString` (main.c:44-54). A deleted or dropped node simply becomes unreachable.
- Integers are unbounded; the C `int` width of the date fields is not modelled.
- File-system calls are parameters:
  - `fopen` for reading is the text of the file, or None;
  - the existence checks of `saveData` are a set of paths;
  - a failing `fopen` for writing (main.c:650-655) is not modelled;
  - `saveData` returns the path and the lines it writes, and `Codec.Text` gives the text of those lines.
- Reading a file is modelled line by line: each field is read from a line of its own. The `fscanf` scanner is not reproduced beyond the first two fields (`Codec.ScannedName`). What it does and the model does not:
  - the `\n` directive after each conversion skips all white space, line breaks included, so a field that starts with white space loses it, and a field made only of white space is skipped (see "## Findings");
  - the unread rest of a line that is too long for its conversion (more than 10, 31 or 1023 bytes, or anything after the sex character or the date) is read by the next conversion, so the later fields shift;
  - a conversion that matches nothing leaves the stream where it was;
  - white space after the last record, such as a trailing blank line, is skipped by the `\n` directive after the last phone (main.c:568), so the next NISN conversion (main.c:524) meets the end of the file and no record is added; the line model instead starts a record at every line after a complete block (`Codec.DecodeBodyLength`), so such a file gives one record more;
  - `fgets` reads an over-long header in chunks.

  The round trip is stated for the records on which the scanner and the line model agree (`Codec.Storable`):
  - every string field is non-empty, has no newline, no NUL and no leading white space, and fits its width (10, 31 or 1023 bytes);
  - the sex is not white space;
  - every character is a byte.
- Store.StudentList.Load: an empty file (main.c:514-515 reads its header with `fgets`, which fails and leaves the buffer undefined) is modelled as a header mismatch with no records.
- Codec.ReadText: in a last, incomplete block, each missing string field copies the last string read before it. That is the value the shared buffer still holds.
- Store.StudentList.Delete requires the key to be present when the list is not empty. With an absent key the C loop tests `head` instead of `curr` (main.c:262) and follows a null pointer past the end. Both callers satisfy the requirement: `editStudent` after a successful lookup (main.c:428) and `clearStudents` with the head's own NISN (main.c:486).
- Registry.EditKeepsAllConsistent and Registry.EditedKeepsAllConsistent exclude the phone edit that can break a contact (`Records.BreaksContact`). `Records.PhoneEditCanBreakContact` shows the break.
- NISN uniqueness is not enforced on load. A loaded file may repeat a NISN, and `Find` returns the first match.
- The model follows the code in two places where a reader might expect otherwise:
  - a last, incomplete block of fewer than thirteen lines still yields a record (main.c:524-570);
  - the date 30-4-2023 is accepted, because April sets `max_day` to 30 (main.c:120-121, 131; `Validation.LeapYearExamples`).
- The `loaded_file_cache` of `main` (main.c:587-588, 724-726) is not modelled. `SavePath.Suggest` receives it as a parameter; `loadData` only ever stores a path of at most 127 characters, so `strncpy` into the 128-byte suggestion keeps it whole.
- The uninitialised bytes `strncpy` leaves behind are not modelled. They arise when a typed line is as long as the buffer. Such a line is modelled as cut to the buffer width.

## Findings

| source | as written | input that shows it | evidently intended | confidence | as-written member | corrected member |
|---|---|---|---|---|---|---|
| main.c:111, 120-131 | `max_day` is set once, before the retry loop, and only months 2, 4, 6, 9 and 11 assign it, so a refused date leaves its month's limit for the next pass | typing 31-4-2023 (refused), then 31-1-2023: the second date is refused because `max_day` is still 30 | each pass starts from `max_day = 31`, so a pass accepts exactly the Gregorian calendar dates | high (follows from the code; not executed) | Validation.MaxDayCarriesOver | Validation.DateAcceptedIsCalendarDate |
| main.c:524-535 | `addStudent` accepts any non-empty name (main.c:197) and `saveData` writes it on its own line, but `loadData` reads it with `%1023[^\n]` right after the `\n` directive of the NISN conversion, which skips every white space character | a record with NISN "1", the name "   " (three spaces) and sex 'L': on loading, the name read is the sex line "L"; the sex is then the first character of the birth-place line and the birth place the rest of it, so three fields are spoiled, and the later ones shift too when the birth place is a single character | a saved name reads back as the same name, as a line-by-line reader does | high (follows from the code; not executed) | Codec.BlankNameShifts | Codec.DecodeEncodedRecord |
