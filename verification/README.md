# Superuser, modelled and proved in Dafny

Two parts of the Superuser repository are modelled here, in the form they have there: pointer loops stay loops over
arrays, objects with fields stay classes, and the two-process protocol is a state machine over system calls.

**The text codecs of the bundled SQLite shell** (`Superuser/jni/sqlite3/shell.c`). Each printer is proved against a
function, each reader works in place in a buffer and is proved against another function, and a law joins the two: what
is printed is what is read back.

**The su request path.** The su client hands its command line and streams to the root daemon; su asks the app over a
local socket; the user's answer goes back over the socket and into a table; later requests are decided from that table.

| files | what they model |
|---|---|
| `CText`, `Decimal` | C strings in buffers, character classes, integers as text |
| `SqlQuoting` | the three quoting routines and the doubled-quote form, SQL-92 sections 5.2 and 5.3 |
| `CsvSpec`, `Csv` | CSV mode and `.import`, RFC 4180 section 2 items 5 to 7 with a free separator and LF line ends |
| `CEscape`, `Tokenizer` | C-style escapes, their in-place removal, the dot-command tokenizer |
| `InsertMode` | the number test, INSERT statements for rows, and a reader for them |
| `Whitespace`, `TablesLayout` | the blank-and-comment scanner, the `.tables` columns |
| `Daemon`, `Session`, `Protocol`, `ChildStreams`, `Terminal` | client and daemon: what is written, what is read, all interleavings, the child's streams, and the pump that shows its output |
| `Framing` | the request su sends to the app |
| `RequestLog`, `Answer` | what a log of events says about the answer, and the request activity |
| `PolicyTable`, `Policy` | the policy table, the native policy check |
| `Argv`, `Property`, `Copying` | argument vector, property files, copy loops |

## Main results

- A table printed in CSV mode is what `.import` reads back, however `fgets` cuts the input, if and only if the separator
  is one byte long or holds a byte that itself forces quotes (`CsvSpec.CsvRoundTripIff`, `Csv.PrintThenImport`,
  `Csv.PrintThenImportWithHeader`).
- Every run of client and daemon, for every client, is safe, free of mutual waiting, and of bounded length; a session can
  be finished if and only if the strings and the announced count are within the daemon's limits; and in every run each
  stream of the child is the client's file or the pseudo-terminal (`Protocol.SessionSafety`, `Protocol.NoDeadlock`,
  `Protocol.EveryRunEnds`, `Protocol.FinishesIff`, `ChildStreams.FdTable.ChildOfRun`).
- With the terminal, the child and the client's pump added, a client whose output is a terminal ends only after all the
  child wrote has been shown, and the session can get stuck in one way only, which some run reaches if and only if the
  output is a terminal (`Terminal.TerminalSafety`, `Terminal.StuckIff`, `Terminal.HangsIff`).
- A request is recovered exactly when it was written whole, its strings fit and the desired uid fits a signed byte
  (`Framing.SendAndReceive`).
- Over every interleaving of the activity's events, at most one reply goes out, what is stored agrees with it, su decodes
  it to the same decision, and the stored row decides later checks, whatever the app does to its table in between, as long
  as the row is spared (`Answer.AnswerThenCheck`). Which event decides, and how, is said on the events alone: su allows only
  by an enabled click on Allow, the right PIN on an open pad, or an allowing automatic response (`RequestLog.AnswersIff`,
  `Answer.Activity.Run`). The activity dies exactly when some event asks for an answer after an earlier one did
  (`Answer.CrashIff`).
- C-style escapes come back for every byte string (`CEscape.ResolveInverts`, `CEscape.PrintThenResolve`), and as
  dot-command arguments exactly when no argument holds a double quote (`Tokenizer.CQuotedSafeIff`,
  `Tokenizer.PrintThenTokenize`). Any dot command that mixes bare and quoted arguments is cut into them in its buffer
  (`Tokenizer.WrittenTokens`, `Tokenizer.TokenizeWritten`).
- From any version-5 policy table, the upgrade and every run of operations after it keep one row for each key
  (`PolicyTable.UpgradeThenRunSound`).

## Where the code and its purpose differ

- `output_csv` compares a separator of several bytes with the start of the field, not with the place it has reached. Such a
  separator is safe only if one of its bytes forces quotes; otherwise some table does not survive
  (`CsvSpec.UnsoundSepBreaks`).
- `output_c_string` writes a double quote as backslash and quote, but the tokenizer ends the argument at that quote and
  passes on half an escape (`Tokenizer.QuoteCutsToken`).
- `getPolicies` compares `until`, in seconds, with the time in milliseconds, so a live ten-minute grant is dropped by the
  first listing (`PolicyTable.LiveGrantPurged`). Negative times, which the ten minutes can wrap around to
  (`Answer.GrantWraps`), are dead to the native check and never purged (`PolicyTable.NegativeRowStays`).
  `PolicyTable.PurgeIff` says exactly for which rows purge and expiry agree.
- The desired uid is read as a signed byte, so requests for uids above 127 are refused (`Framing.RequestRoundTrip`).
- A live matching row whose policy is "interactive" counts as an allowance (`Policy.InteractiveAllows`). A request is
  allowed without a live "allow" row exactly when there are live rows and all say "interactive"
  (`Policy.AllowedWithoutAllowIff`).
- With the mount flag set, the client announces one argument fewer than it sends unless there is an element 1 to skip
  (`Daemon.AnnouncedIff`). With a single argument the daemon then acknowledges none at all, and with no argument no session
  finishes (`Protocol.ArgsArriveIff`, `Protocol.NothingToSkip`).
- `pump_stdout_blocking` returns when the far end closes, but if the fork fails, or the child ends before it opens the
  slave, there is no far end: the client waits for ever and never reads the code that the daemon has sent
  (`Terminal.HangsIff`, `Terminal.HungForEver`).
- A second answer to a request, which a turn of the device makes possible, fails an assertion and ends the app
  (`Answer.SecondDenialCrashes`).
- `run_daemon_child` closes the descriptors it has just duplicated, so the child keeps all three standard streams exactly
  when none of the descriptors was itself below 3 (`ChildStreams.FdTable.RunDaemonChild`, `ChildStreams.LowDescriptor`).
- The comment on `check_property` names one case in which it answers yes where the lookup finds nothing, a commented-out
  key. There are others: a text inside a value or in the middle of a key, on a line without '=', or on an unfinished last
  line (`Property.CheckWithoutLookup`). The two agree exactly when the text occurs nowhere or at the start of some line's
  key (`Property.CheckAgreesIff`, `Property.PlainLookupIff`).

## Model

| member | source | states |
|---|---|---|
| SqlQuoting.TakeQuotedInverts | Superuser/jni/sqlite3/shell.c:507-532 | un-doubling recovers any text and stops exactly at the closing quote, whatever follows |
| SqlQuoting.DoubledOfFree | Superuser/jni/sqlite3/shell.c:513-514 | the fast path is right: a text without quotes is its own doubled form |
| SqlQuoting.OutputQuotedString | Superuser/jni/sqlite3/shell.c:507-532 | both paths append exactly the doubled-quote form |
| SqlQuoting.OutputRuns | Superuser/jni/sqlite3/shell.c:517-529 | printing run by run gives the text with every quote doubled |
| SqlQuoting.RunLength | Superuser/jni/sqlite3/shell.c:518 | the longest run without a quote |
| SqlQuoting.CountTableName | Superuser/jni/sqlite3/shell.c:884-891 | the first pass finds whether quotes are needed and the exact length of the name as it is written |
| SqlQuoting.CopyTableName | Superuser/jni/sqlite3/shell.c:884-904 | the counting pass allocates exactly what the filling pass writes, up to and including the terminator |
| SqlQuoting.Destination.SetTableName | Superuser/jni/sqlite3/shell.c:874-905 | a NULL name clears the field; otherwise it holds the plain or quoted name |
| SqlQuoting.TableNameInverts | Superuser/jni/sqlite3/shell.c:884-904 | the stored form of every name, plain or quoted, determines the name |
| SqlQuoting.PutDoubled | Superuser/jni/sqlite3/shell.c:937-940 | fills exactly the doubled text and leaves the rest of the buffer alone |
| SqlQuoting.QuotedSize | Superuser/jni/sqlite3/shell.c:921-927 | the first pass counts the bytes of the quoted form |
| SqlQuoting.PutQuoted | Superuser/jni/sqlite3/shell.c:934-941 | the second pass writes the quoted form, as many bytes as counted |
| SqlQuoting.AppendText | Superuser/jni/sqlite3/shell.c:915-950 | old text followed by the new one, quoted on request; the buffer ends at its terminator |
| SqlQuoting.DumpSelect | Superuser/jni/sqlite3/shell.c:1318-1326 | the front of the dump query holds the table name quoted twice, as identifier and then as literal |
| SqlQuoting.NestedQuotingInverts | Superuser/jni/sqlite3/shell.c:1318-1326 | reading the literal and then the identifier gives the table name back |
| CsvSpec.QuotedParity | Superuser/jni/sqlite3/shell.c:642-648 | in a printed quoted field the quotes balance, and everything but quotes stands inside them |
| CsvSpec.FieldEndsAtSep | Superuser/jni/sqlite3/shell.c:1874-1885 | for a sound separator the column splitter stops exactly at the end of a printed field |
| CsvSpec.DequoteInverts | Superuser/jni/sqlite3/shell.c:1897-1904 | dequoting a printed field gives the field |
| CsvSpec.CellsInvert | Superuser/jni/sqlite3/shell.c:822-825 | splitting and dequoting a printed row gives the row |
| CsvSpec.RowIsFirstLine | Superuser/jni/sqlite3/shell.c:365-374 | the record reader cuts the file exactly after the first printed row, newlines inside quotes included |
| CsvSpec.CsvRoundTrip | Superuser/jni/sqlite3/shell.c:627-656 | every list of rows of n text cells is restored by importing what was printed |
| CsvSpec.CrLfRoundTrip | Superuser/jni/sqlite3/shell.c:369-374 | the same table with CR LF line ends imports as the same rows |
| CsvSpec.OpenEndRoundTrip | Superuser/jni/sqlite3/shell.c:357-363 | so does a file whose last record has no line end |
| CsvSpec.PlainLine | Superuser/jni/sqlite3/shell.c:369-374 | outside CSV mode a line ends at the first newline whatever the quotes, and one return before it goes too |
| CsvSpec.WrongCountRejected | Superuser/jni/sqlite3/shell.c:1887-1894 | a table with a row of another number of columns is rejected as a whole, wherever that row stands |
| CsvSpec.ImportedFits | Superuser/jni/sqlite3/shell.c:1887-1894 | whatever the file, every imported row has the right number of columns |
| CsvSpec.UnsoundSepBreaks | Superuser/jni/sqlite3/shell.c:636-637 | for every other separator a one-row table is not restored |
| CsvSpec.CsvRoundTripIff | Superuser/jni/sqlite3/shell.c:636-637 | all tables survive if and only if the separator is one byte or holds a byte that forces quotes |
| Csv.CallbackData.ScanField | Superuser/jni/sqlite3/shell.c:634-641 | the index comes back zero exactly for fields that must be quoted: the empty one, those with a control character, blank, quote or byte from 127, those with the first byte of the separator if it is the whole separator or the separator starts the field |
| Csv.CallbackData.OutputQuoted | Superuser/jni/sqlite3/shell.c:642-648 | appends the doubled-quote form in double quotes |
| Csv.CallbackData.OutputCsv | Superuser/jni/sqlite3/shell.c:627-656 | appends the field, quoted exactly when needed, or the null text as it is, and the separator when asked |
| Csv.CallbackData.ShellCallbackCsv | Superuser/jni/sqlite3/shell.c:814-827 | one row a call; the column names, with an empty field for NULL, once, before the first row, when the header is on |
| Csv.PrintTable | Superuser/jni/sqlite3/shell.c:814-827 | a result set prints as the header row, once and only when it is on and there are rows, followed by its rows |
| Csv.InFile.Fgets | Superuser/jni/sqlite3/shell.c:357 | what the reader relies on: a non-empty chunk that fits, with a newline at most at its end |
| Csv.ScanChunk | Superuser/jni/sqlite3/shell.c:365-368 | the flag kept across chunks is the quote parity of all that was read |
| Csv.GetChunk | Superuser/jni/sqlite3/shell.c:357-369 | a chunk ends a record at its last byte or nowhere |
| Csv.ReadRecord | Superuser/jni/sqlite3/shell.c:351-375 | however the input is cut into chunks, the buffer holds the text up to the first record end, and the file stands behind it |
| Csv.LocalGetline | Superuser/jni/sqlite3/shell.c:337-378 | the next record without its line end as a C string that fits its buffer, or NULL exactly at the end of the input |
| Csv.CutColumn | Superuser/jni/sqlite3/shell.c:1877-1884 | ending a column in place keeps the columns before it and the text behind it |
| Csv.SplitColumns | Superuser/jni/sqlite3/shell.c:1873-1895 | the count is right exactly when the record has nCol columns, and then the buffer holds them disjointly at the recorded offsets |
| Csv.DequoteInPlace | Superuser/jni/sqlite3/shell.c:1897-1904 | the column becomes its dequoted text, written behind the read index; no byte outside the column changes |
| Csv.ImportRecord | Superuser/jni/sqlite3/shell.c:1870-1906 | binds the dequoted columns, or reports the wrong number of them |
| Csv.Import | Superuser/jni/sqlite3/shell.c:1867-1920 | commits all rows of the file, or none when a record has the wrong number of columns or the engine refuses a row |
| Csv.PrintThenImport | Superuser/jni/sqlite3/shell.c:1869-1909 | printing to a file and importing it runs within all buffers and gives back the same rows |
| Csv.PrintThenImportWithHeader | Superuser/jni/sqlite3/shell.c:814-827 | with the header on, the column names come back as the first row, an empty one for NULL, and then the rows |
| CEscape.OutputCString | Superuser/jni/sqlite3/shell.c:537-563 | appends the escaped text in double quotes |
| CEscape.PrintEscaped | Superuser/jni/sqlite3/shell.c:541-560 | one character as itself or as the escape that stands for it |
| CEscape.UnitInverts | Superuser/jni/sqlite3/shell.c:1499-1518 | an escape is read back as its character whatever follows, so octal escapes never take in following digits |
| CEscape.ResolveInverts | Superuser/jni/sqlite3/shell.c:1495-1522 | unescaping the printed body restores every byte string |
| CEscape.UnitMeaning | Superuser/jni/sqlite3/shell.c:1499-1518 | n, t and r stand for their characters, an octal escape takes up to three octal digits and keeps the low byte, any other character stands for itself |
| CEscape.PlainPrinted | Superuser/jni/sqlite3/shell.c:557-559 | printable text without backslashes and double quotes is printed as it is |
| CEscape.ShortNames | Superuser/jni/sqlite3/shell.c:541-556 | tab, newline, return, backslash and double quote are printed as backslash and one character |
| CEscape.EscapeBodyPaired | Superuser/jni/sqlite3/shell.c:1500 | a printed body never ends in half an escape; with a lone backslash after it it would |
| CEscape.EscapeBodyPrintable | Superuser/jni/sqlite3/shell.c:537-563 | only printable characters are printed, and quotes only for quotes |
| CEscape.ResolvePrinted | Superuser/jni/sqlite3/shell.c:1495-1522 | a buffer holding a printed body ends up holding the text that was printed, and nothing around it changes |
| CEscape.PrintThenResolve | Superuser/jni/sqlite3/shell.c:537-563 | printing and unescaping in a buffer gives back every byte string |
| CEscape.ReadUnit | Superuser/jni/sqlite3/shell.c:1499-1518 | decodes one unit and stops at its last character |
| CEscape.ResolveBackslashes | Superuser/jni/sqlite3/shell.c:1495-1522 | in place: the buffer holds the resolved text, the write index never passes the read index, and nothing outside changes |
| Tokenizer.SkipBlanks | Superuser/jni/sqlite3/shell.c:1603 | stops at the first character that is not blank |
| Tokenizer.CutToken | Superuser/jni/sqlite3/shell.c:1605-1618 | cuts and resolves one token in place; the line behind it and everything before it stay as they were |
| Tokenizer.Tokenize | Superuser/jni/sqlite3/shell.c:1600-1619 | the arguments are the tokens of the line, at most fifty, as ordered and disjoint slices of the buffer |
| Tokenizer.LineTokens | Superuser/jni/sqlite3/shell.c:1605-1612 | delimited texts free of their delimiter, with any blanks between, come back as tokens |
| Tokenizer.WrittenTokens | Superuser/jni/sqlite3/shell.c:1603-1618 | a line that mixes bare words, single-quoted and double-quoted texts, bare words kept apart by blanks, is cut into exactly these, with backslashes resolved in all but single quotes |
| Tokenizer.BareWords | Superuser/jni/sqlite3/shell.c:1613-1617 | bare words without backslashes are the arguments, the first `room` of them |
| Tokenizer.TokenizeWritten | Superuser/jni/sqlite3/shell.c:1600-1619 | the same in the buffer: the first fifty arguments of any such line stand at the recorded offsets, one after the other |
| Tokenizer.SingleQuotedRoundTrip | Superuser/jni/sqlite3/shell.c:1600-1619 | arguments free of single quotes, each in single quotes, come back, the first fifty of them |
| Tokenizer.CQuotedRoundTrip | Superuser/jni/sqlite3/shell.c:1600-1619 | arguments free of double quotes, printed as C strings, come back, the first fifty of them |
| Tokenizer.PrintArgs | Superuser/jni/sqlite3/shell.c:807-810 | a blank and a printed C string for each argument |
| Tokenizer.PrintThenTokenize | Superuser/jni/sqlite3/shell.c:1600-1619 | printing a dot command and tokenizing it in its buffer leaves the first fifty arguments at the recorded offsets, one after the other |
| Tokenizer.QuoteCutsToken | Superuser/jni/sqlite3/shell.c:1608 | a printed double quote ends the token early and leaves it with an unpaired backslash |
| Tokenizer.CQuotedSafeIff | Superuser/jni/sqlite3/shell.c:1605-1612 | printed C strings tokenize into well-formed arguments if and only if none holds a double quote |
| InsertMode.ScanExponent | Superuser/jni/sqlite3/shell.c:296-303 | accepts exactly an exponent or nothing up to the end |
| InsertMode.IsNumber | Superuser/jni/sqlite3/shell.c:282-304 | true exactly for [+-]?d+(.d+)?([eE][+-]?d+)?, and tells integers from the rest |
| InsertMode.ScansIff | Superuser/jni/sqlite3/shell.c:282-304 | the index-by-index scan accepts exactly the texts that cut into sign, digits, fraction and exponent |
| InsertMode.NumeralForms | Superuser/jni/sqlite3/shell.c:282-304 | digits with an optional sign, fraction and exponent, and the exponent with its own sign, are numbers |
| InsertMode.NumeralChars | Superuser/jni/sqlite3/shell.c:846-847 | a numeral holds no comma, parenthesis or quote, so it needs none around it |
| InsertMode.PrintValue | Superuser/jni/sqlite3/shell.c:834-851 | NULL, a quoted text or a bare number, by type or, without types, by the number test |
| InsertMode.ShellCallbackInsert | Superuser/jni/sqlite3/shell.c:828-855 | one whole statement for a row, nothing for a NULL row |
| InsertMode.ReadValueInverts | Superuser/jni/sqlite3/shell.c:834-851 | a printed value in front of a comma or parenthesis reads back as the cell it was printed for |
| InsertMode.LiteralPrinted | Superuser/jni/sqlite3/shell.c:834-851 | the literal printed is the one due: NULL, quoted text even when it looks like a number, or a bare number |
| InsertMode.InsertRoundTrip | Superuser/jni/sqlite3/shell.c:828-855 | the statement determines its table name and its row, whatever text follows |
| InsertMode.InsertUnique | Superuser/jni/sqlite3/shell.c:828-855 | without types, equal texts come only from equal tables and rows |
| Whitespace.SkipPiece | Superuser/jni/sqlite3/shell.c:2558-2574 | one turn steps over one blank or comment, or answers |
| Whitespace.AllWhitespace | Superuser/jni/sqlite3/shell.c:2557-2576 | true exactly for sequences of blanks, closed block comments and line comments, the last of which may be open; terminates |
| Whitespace.AllBlankIff | Superuser/jni/sqlite3/shell.c:2557-2576 | the scan accepts exactly the grammar of pieces |
| TablesLayout.PrintTables | Superuser/jni/sqlite3/shell.c:2336-2354 | the strided double loop prints the lines of the layout, and nothing for no names |
| TablesLayout.RowsCover | Superuser/jni/sqlite3/shell.c:2344-2346 | the lines suffice for all names, one line less would not, and there are never more lines than names |
| TablesLayout.EachPrintedOnce | Superuser/jni/sqlite3/shell.c:2347-2348 | the double loop goes through every index below n exactly once and through no other |
| TablesLayout.LineShowsIndices | Superuser/jni/sqlite3/shell.c:2348-2351 | the text of a line is the cells of the indices it goes through, in that order |
| TablesLayout.CellCount | Superuser/jni/sqlite3/shell.c:2348 | line i holds exactly the indices i, i + rows, i + 2 rows and so on below n |
| TablesLayout.NamePlaced | Superuser/jni/sqlite3/shell.c:2347-2353 | every name stands in line j mod rows at column j div rows, padded to the longest |
| TablesLayout.LineWidth | Superuser/jni/sqlite3/shell.c:2348-2351 | a line is as wide as its cells and the blanks between them |
| TablesLayout.LineFits | Superuser/jni/sqlite3/shell.c:2344-2352 | no line has more cells than columns; it is at most 78 wide when the longest name allows two blanks in 80, and one cell otherwise |
| Decimal.ParseInverts | Superuser/src/com/koushikdutta/superuser/MultitaskSuRequestActivity.java:340-344 | a printed integer is parsed back, or rejected when it exceeds the range asked for |
| Decimal.AtoiInverts | Superuser/jni/su/db.c:57 | atoi of a printed integer is the integer |
| Decimal.AtoiMeaning | Superuser/jni/su/db.c:57 | atoi skips blanks, takes one sign and the digits, and stops at what follows |
| Decimal.FormatIntFits | Superuser/jni/su/su.c:408-409 | a printed int takes at most eleven characters, so the 16-byte buffer never cuts it |
| Daemon.NativeInverts | Superuser/jni/su/daemon.c:170-186 | an int written and read as four bytes is the same int, sign included |
| Daemon.AnnouncedIff | Superuser/jni/su/daemon.c:629-639 | the number of arguments announced is the number sent if and only if the mount flag comes with an element 1 |
| Daemon.SentElements | Superuser/jni/su/daemon.c:629-639 | without the mount flag every argument is sent in order; with it, every one but element 1 |
| Daemon.ConnectDaemon | Superuser/jni/su/daemon.c:591-639 | the writes of the client, one for each system call, in order |
| Daemon.WriteArgs | Superuser/jni/su/daemon.c:632-639 | the argument loop sends every argument but element 1 under the mount flag |
| Session.DaemonProcess.ReadString | Superuser/jni/su/daemon.c:188-206 | a length within 0 and 4096 and then that many bytes, or the daemon exits |
| Session.DaemonProcess.ReadIdentity | Superuser/jni/su/daemon.c:280-302 | goes on in step with the state machine; a peer that is not root gets the uid and pid of its credentials |
| Session.DaemonProcess.ReadStreams | Superuser/jni/su/daemon.c:304-308 | mount flag and three descriptors in order, or exit |
| Session.DaemonProcess.ReadArgs | Superuser/jni/su/daemon.c:310-321 | at most 512 arguments, each as sent, or exit |
| Session.DaemonProcess.DaemonAccept | Superuser/jni/su/daemon.c:278-321 | reading as coded refines the state machine, whatever each read delivers |
| Session.PeerIdentity | Superuser/jni/su/daemon.c:289-302 | whatever bytes arrive, a daemon that acknowledges a peer that is not root holds the identity of the credentials |
| Session.AcceptsNext | Superuser/jni/su/daemon.c:278-321 | for every client, read j takes exactly what write j put there; the daemon then knows what it should, or fails at a limit |
| Session.ServedFrom | Superuser/jni/su/daemon.c:278-321 | from any point on, reading the remaining writes reaches the acknowledgement unless a limit is exceeded |
| Protocol.WritesInvert | Superuser/jni/su/daemon.c:591-639 | for every client, the daemon acknowledges the client's writes if and only if they are within its limits, and then holds exactly what was sent, as many arguments as announced |
| Protocol.StepInv | Superuser/jni/su/daemon.c:278-362 | every step of either process, short and failing calls included, keeps the session invariant |
| Protocol.SessionSafety | Superuser/jni/su/daemon.c:278-362 | in every run a daemon past its reads holds exactly what was sent, as many arguments as announced, under the identity it can trust, and the client ends only with the code the daemon wrote |
| Protocol.SessionMeaning | Superuser/jni/su/daemon.c:278-362 | the code a client ends with was written by some step of the run; a daemon past its reads holds the arguments of the command line, element 1 left out under the mount flag |
| Protocol.ArgsArriveIff | Superuser/jni/su/daemon.c:629-639 | acknowledging daemons always hold the arguments sent, if and only if the mount flag does not come with a single argument or a limit keeps every daemon from acknowledging |
| Protocol.NothingToSkip | Superuser/jni/su/daemon.c:310-314 | with the mount flag and no argument, no run gets past the argument count |
| Protocol.ReadIsReady | Superuser/jni/su/daemon.c:591-642 | once the client has written everything, each next read of the daemon finds all its bytes |
| Protocol.NoDeadlock | Superuser/jni/su/daemon.c:641-653 | no run gets to where both sides wait on empty streams |
| Protocol.StepCounts | Superuser/jni/su/daemon.c:278-362 | every step brings the session nearer to its end |
| Protocol.EveryRunEnds | Superuser/jni/su/daemon.c:278-362 | no run is longer than 25 steps and four for each argument |
| Protocol.CanFinish | Superuser/jni/su/daemon.c:278-362 | within the limits, any session state without a failure can be carried on to the exit code |
| Protocol.FinishesIff | Superuser/jni/su/daemon.c:190-194 | for every client, some run ends with an exit code if and only if strings and announced count are within the limits |
| Terminal.Projects | Superuser/jni/su/daemon.c:641-653 | leaving out terminal and child, every run is a run of client and daemon |
| Terminal.MoveInv | Superuser/jni/su/daemon.c:641-653 | every move of client, daemon, child or pump keeps the invariant of the whole session |
| Terminal.TerminalSafety | Superuser/jni/su/daemon.c:644-657 | in every run the client ends with the child's code or -1, and on a terminal only after the child exited and all it wrote was shown, unless the pump broke |
| Terminal.TerminalMeaning | Superuser/jni/su/daemon.c:644-657 | a code other than -1 is that of a move of the run in which the child exited; on a terminal the child opened it and what was shown is all the text of its writes in the run, in order |
| Terminal.OutputWritten | Superuser/jni/su/pts.c:55-63 | the output after a run is the text of the writes in it, in order |
| Terminal.StuckIff | Superuser/jni/su/daemon.c:644-653 | in every run, while the client lives, only failures are possible exactly when its pump waits for a terminal nobody will open |
| Terminal.HungForEver | Superuser/jni/su/pts.c:320-330 | whatever follows, the session then stands still until the pump breaks or the client is killed, so it never comes to the code by itself |
| Terminal.HangsIff | Superuser/jni/su/daemon.c:329-336 | some run gets there if and only if the client's output is a terminal and the daemon takes what it sends |
| Terminal.EveryTerminalRunEnds | Superuser/jni/su/pts.c:55-63 | a run is no longer than 28 moves, four for each argument, one for each write of the child and one for each byte shown |
| ChildStreams.StreamsOfRun | Superuser/jni/su/daemon.c:384-395 | in every run, what the daemon picks for a stream is the client's file for an open one and the pseudo-terminal for a terminal |
| ChildStreams.ResolvesIff | Superuser/jni/su/daemon.c:374-401 | every stream of the child can be had exactly when none is closed or some stream is a terminal |
| ChildStreams.FdTable.RunDaemonChild | Superuser/jni/su/daemon.c:255-276 | fails exactly when a descriptor is missing; otherwise the streams are right, all open exactly when no descriptor was below 3 |
| ChildStreams.LowDescriptor | Superuser/jni/su/daemon.c:255-273 | a child given descriptor 1 itself as output goes on without standard output |
| ChildStreams.FdTable.Child | Superuser/jni/su/daemon.c:373-410 | from what the daemon holds: the child runs exactly when every stream resolves and the terminal opens; its streams are the right files, all open exactly when no descriptor in use was below 3 |
| ChildStreams.FdTable.ChildOfRun | Superuser/jni/su/daemon.c:373-410 | in every run of the session, the child runs exactly when the client's streams allow it, and its streams are the client's files or the pseudo-terminal |
| Framing.GetPut | Superuser/jni/su/su.c:386-387 | a length sent in network order is read back |
| Framing.Channel.WriteData | Superuser/jni/su/su.c:384-397 | the whole frame, or a proper prefix and a failure |
| Framing.SocketSendRequest | Superuser/jni/su/su.c:383-425 | 0 when all ten pairs are out, -1 with only a proper prefix out |
| Framing.DataInput.ManageSocket | Superuser/src/com/koushikdutta/superuser/MultitaskSuRequestActivity.java:306-374 | the bounded loop accepts exactly what the receiving function accepts and leaves the rest unread |
| Framing.PairRead | Superuser/src/com/koushikdutta/superuser/MultitaskSuRequestActivity.java:320-336 | one sent pair is one turn of the loop; a pair over its limit ends it |
| Framing.EncodeRead | Superuser/src/com/koushikdutta/superuser/MultitaskSuRequestActivity.java:319-337 | the receiver consumes exactly the bytes of the pairs, ends at "eof" and not before, and gives up if any pair is over its limit |
| Framing.TwentyRead | Superuser/src/com/koushikdutta/superuser/MultitaskSuRequestActivity.java:319-337 | twenty pairs without "eof" are accepted too, and what follows them stays unread |
| Framing.ReadExtends | Superuser/src/com/koushikdutta/superuser/MultitaskSuRequestActivity.java:319-337 | more bytes never change what was accepted |
| Framing.RequestRoundTrip | Superuser/src/com/koushikdutta/superuser/MultitaskSuRequestActivity.java:339-344 | every field comes back, signed and unsigned integers included, when strings fit and the desired uid fits a signed byte; otherwise the request is refused |
| Framing.PayloadHolds | Superuser/jni/su/su.c:413-423 | the app receives, under each name, what the context has for it |
| Framing.RequestStarts | Superuser/jni/su/su.c:413-423 | ten pairs go out, and the first bytes are the length of "version", most significant byte first, and that name |
| Framing.RequestTruncated | Superuser/jni/su/su.c:388-395 | no proper prefix of a request is accepted |
| Framing.SendAndReceive | Superuser/jni/su/su.c:383-425 | sender and receiver together: for any partial or failing writes the request arrives as sent or is refused, and exactly when |
| Policy.CallbackData.DatabaseCallback | Superuser/jni/su/db.c:30-78 | a live denying row stops the query with DENY, a live other row sets ALLOW, any other row changes nothing; NULL and empty commands match every command, NULL and zero times never end |
| Policy.DatabaseCheck | Superuser/jni/su/db.c:80-105 | the fold with its early stop gives the declarative rule, for a clock that moves from row to row; DENY after a query error, INTERACTIVE when the database does not open |
| Policy.SteadyClock | Superuser/jni/su/db.c:65 | with a clock that stands still, this is the rule for one point in time |
| Policy.InteractiveAllows | Superuser/jni/su/db.c:44-46 | a single "interactive" row allows every command of its uid |
| Policy.AllowedWithoutAllowIff | Superuser/jni/su/db.c:62-75 | allowed without a live "allow" row exactly when there are live rows and all say "interactive" |
| Policy.RuleIgnoresOrder | Superuser/jni/su/db.c:62-75 | the order of the rows does not matter |
| PolicyTable.SuDatabase.SetPolicy | Superuser/src/com/koushikdutta/superuser/db/SuDatabaseHelper.java:117-135 | afterwards the table holds the policy, with an empty command for a null one, and of the old rows exactly those that differ in uid, desired uid or command |
| PolicyTable.PutMembers | Superuser/src/com/koushikdutta/superuser/db/SuDatabaseHelper.java:117-135 | the rows after a replacement, said on the columns |
| PolicyTable.PurgeMembers | Superuser/src/com/koushikdutta/superuser/db/SuDatabaseHelper.java:151 | the rows after a purge, said on the columns |
| PolicyTable.SuDatabase.GetPolicies | Superuser/src/com/koushikdutta/superuser/db/SuDatabaseHelper.java:148-167 | drops exactly the rows with a positive time below the milliseconds now, then lists the table in order |
| PolicyTable.SuDatabase.Get | Superuser/src/com/koushikdutta/superuser/db/SuDatabaseHelper.java:190-207 | the first row with this uid, this desired uid and, unless it is null or empty, this command; none exactly when there is no such row |
| PolicyTable.SelectFirst | Superuser/src/com/koushikdutta/superuser/db/SuDatabaseHelper.java:193-200 | a cursor is empty exactly when no row is hit, and otherwise stands on the first one |
| PolicyTable.SuDatabase.Delete | Superuser/src/com/koushikdutta/superuser/db/SuDatabaseHelper.java:179-188 | keeps exactly the rows that differ in uid, in desired uid or, unless it is null or empty, in command; always reports success |
| PolicyTable.ClauseMeaning | Superuser/src/com/koushikdutta/superuser/db/SuDatabaseHelper.java:179-200 | both clauses built for a command hit exactly the rows with this uid, desired uid and, unless it is null or empty, command |
| PolicyTable.SuDatabase.OnUpgrade | Superuser/src/com/koushikdutta/superuser/db/SuDatabaseHelper.java:42-106 | from any version, the table is rewritten through setPolicy; coming from below 5 every row notifies |
| PolicyTable.DeletedIsGone | Superuser/src/com/koushikdutta/superuser/db/SuDatabaseHelper.java:179-187 | delete removes exactly the rows with this uid, desired uid and, if given, command, and get then finds none, for null commands too |
| PolicyTable.UpgradeThenRunSound | Superuser/src/com/koushikdutta/superuser/db/SuDatabaseHelper.java:97-207 | after the upgrade, every run of set, delete and list keeps one row for each key and no null command |
| PolicyTable.UpgradeKeepsLast | Superuser/src/com/koushikdutta/superuser/db/SuDatabaseHelper.java:97-105 | the upgrade keeps exactly the last surviving row for each normalised key |
| PolicyTable.UpgradeNotifies | Superuser/src/com/koushikdutta/superuser/db/SuDatabaseHelper.java:91-105 | coming from before version 5, every row notifies |
| PolicyTable.RowStays | Superuser/src/com/koushikdutta/superuser/db/SuDatabaseHelper.java:117-188 | over every run, a row leaves only by being overwritten, deleted or purged |
| PolicyTable.PermanentRowStays | Superuser/src/com/koushikdutta/superuser/db/SuDatabaseHelper.java:151 | over every run, a permanent row leaves only by being overwritten or deleted |
| PolicyTable.PurgeIff | Superuser/src/com/koushikdutta/superuser/db/SuDatabaseHelper.java:151 | the purge agrees with the native check's expiry exactly for permanent rows and, of the rows with a positive time, for expired ones and ones whose seconds are at least the milliseconds now |
| PolicyTable.NegativeRowStays | Superuser/src/com/koushikdutta/superuser/db/SuDatabaseHelper.java:151 | a row with a negative time is dead to the native check and dropped by no listing |
| PolicyTable.LiveGrantPurged | Superuser/src/com/koushikdutta/superuser/db/SuDatabaseHelper.java:151 | a grant for ten minutes is dropped by the first listing although it is live |
| Answer.GrantWraps | Superuser/src/com/koushikdutta/superuser/MultitaskSuRequestActivity.java:84 | at the end of the clock's range the ten minutes wrap around to a negative time, which is stored |
| RequestLog.AnswersIff | Superuser/src/com/koushikdutta/superuser/MultitaskSuRequestActivity.java:231-283 | said on the events alone: which events allow (an enabled click on Allow, the right PIN on an open pad, an allowing response that is the first) and which deny |
| RequestLog.EnabledIff | Superuser/src/com/koushikdutta/superuser/MultitaskSuRequestActivity.java:268-282 | Allow is enabled exactly when, on the screen as last drawn, the countdown of a request read and shown has ended |
| RequestLog.PadIff | Superuser/src/com/koushikdutta/superuser/MultitaskSuRequestActivity.java:478-503 | the PIN pad is open exactly when an enabled click on Allow opened it since the screen was last drawn |
| RequestLog.PadSince | Superuser/src/com/koushikdutta/superuser/MultitaskSuRequestActivity.java:479 | the pad keeps the duration chosen at the click that opened it |
| RequestLog.PostedIff | Superuser/src/com/koushikdutta/superuser/MultitaskSuRequestActivity.java:231-268 | the response that answers is the first one posted, by showing a request that was read or by drawing it again |
| RequestLog.ReceivedFirst | Superuser/src/com/koushikdutta/superuser/MultitaskSuRequestActivity.java:340-344 | the request decided is the first one read |
| RequestLog.DurationMeaning | Superuser/src/com/koushikdutta/superuser/MultitaskSuRequestActivity.java:78-99 | with a request on the screen the last choice decides: for ever, ten minutes from now, or not at all |
| RequestLog.NothingRemembered | Superuser/src/com/koushikdutta/superuser/MultitaskSuRequestActivity.java:78-99 | without a choice, or without a request on the screen, nothing is remembered |
| Answer.Activity.HandleAction | Superuser/src/com/koushikdutta/superuser/MultitaskSuRequestActivity.java:101-131 | the first call decides, replies and stores consistently; a second one is fatal and changes nothing |
| Answer.Activity.OnClickAllow | Superuser/src/com/koushikdutta/superuser/MultitaskSuRequestActivity.java:470-504 | without a PIN it answers; with one it fixes the duration chosen at that moment and waits, and a click on a disabled button changes neither |
| Answer.Activity.OnPin | Superuser/src/com/koushikdutta/superuser/MultitaskSuRequestActivity.java:484-499 | the right PIN allows for the duration chosen before, cancelling denies, a wrong PIN changes nothing |
| Answer.Activity.OnUnattended | Superuser/src/com/koushikdutta/superuser/MultitaskSuRequestActivity.java:134-138 | posted responses, timeout and destruction answer only if nothing else has |
| Answer.Activity.Handle | Superuser/src/com/koushikdutta/superuser/MultitaskSuRequestActivity.java:72-283 | every event keeps reply, decision and stored policy in agreement, and does to the screen what is specified for it |
| Answer.Activity.Run | Superuser/src/com/koushikdutta/superuser/MultitaskSuRequestActivity.java:72-145 | over every interleaving at most one reply, a stored policy that agrees with it, and a decision by the time the activity is destroyed; a fresh activity decides with the first event that, by the events alone, allows or denies, as it does, and for the first request read |
| Answer.SilentScreen | Superuser/src/com/koushikdutta/superuser/MultitaskSuRequestActivity.java:72-145 | after a run without an answer the screen is what the log of events says it is |
| Answer.ClickedAsChosen | Superuser/src/com/koushikdutta/superuser/MultitaskSuRequestActivity.java:470-510 | request, countdown, choice and click: allowed or denied for as long as was chosen, counted from the click |
| Answer.PinAsChosen | Superuser/src/com/koushikdutta/superuser/MultitaskSuRequestActivity.java:478-503 | with a PIN the same, still counted from the click; a wrong PIN decides nothing |
| Answer.DecidedAlone | Superuser/src/com/koushikdutta/superuser/MultitaskSuRequestActivity.java:231-268 | an automatic response decides for ever, the end of the time denies without storing |
| Answer.CrashIff | Superuser/src/com/koushikdutta/superuser/MultitaskSuRequestActivity.java:101-103 | over every run of events, the activity dies exactly when an event asks for an answer after an earlier one did, and has answered exactly when one did |
| Answer.SecondDenialCrashes | Superuser/src/com/koushikdutta/superuser/MultitaskSuRequestActivity.java:427-432 | it happens: a denial, a redraw that enables the button again, and a denial |
| Answer.ReceiveAnswer | Superuser/jni/su/su.c:427-439 | one read within the buffer, and the decision for exactly the text that arrived; a failed read denies |
| Answer.ReplyDecoded | Superuser/jni/su/su.c:960-975 | su allows exactly when the whole reply of an allowed request arrived |
| Answer.CheckOnTable | Superuser/jni/su/db.c:80-105 | the native check, stated on the rows of the app's table, whose times it reads as text |
| Answer.StoredAnswerDecides | Superuser/jni/su/db.c:62-75 | while its row is live, a stored denial denies, and a stored allowance allows unless another live matching row denies |
| Answer.StoredAnswerLasts | Superuser/jni/su/db.c:62-75 | the same after any run of table operations that spares the stored row |
| Answer.Perform | Superuser/src/com/koushikdutta/superuser/db/SuDatabaseHelper.java:117-188 | any sequence of helper calls leaves the table its specification says |
| Answer.AnswerThenCheck | Superuser/src/com/koushikdutta/superuser/MultitaskSuRequestActivity.java:101-131 | the whole way from events to reply, through any table operations, to a later check: su allows only what the first answering event allowed, and a stored row that was spared decides |
| Argv.ReadOptions | Superuser/jni/su/su.c:747-765 | the request fields after any list of options |
| Argv.LastCommandWins | Superuser/jni/su/su.c:749-752 | the last -c gives the command |
| Argv.LastShellWins | Superuser/jni/su/su.c:749-765 | the last of -c and -s gives the shell, -c resetting it to the default |
| Argv.FlagsSet | Superuser/jni/su/su.c:756-762 | login and environment flags are set exactly when their option is present |
| Argv.AbsentOptions | Superuser/jni/su/su.c:747-765 | without the options, command and shell stay unset |
| Argv.SuRequest.ScanPositional | Superuser/jni/su/su.c:808-837 | said on the vector: an optional dash sets the login flag, the next argument, unless it is a double dash, names the user whose uid is taken, and fails exactly when unknown; then a double dash is skipped |
| Argv.SuRequest.Allow | Superuser/jni/su/su.c:500-547 | the vector passed on is base name, dashed for a login shell, -c and command if given, then exactly the arguments not consumed; nothing else is written |
| Argv.BaseName | Superuser/jni/su/su.c:519-520 | the text after the last slash, or the whole path |
| Argv.BaseIs | Superuser/jni/su/su.c:519-520 | the base name is the longest slash-free end of the path |
| Argv.NameEnds | Superuser/jni/su/su.c:519-531 | the name passed on is what stands behind the last slash, with a dash in front for a login shell |
| Property.TrimMeaning | Superuser/jni/su/utils.c:71-78 | trimming removes blanks at both ends and nothing else |
| Property.StrChr | Superuser/jni/su/utils.c:62-67 | finds the first occurrence within the string, or its end |
| Property.CutRight | Superuser/jni/su/utils.c:73-78 | overwrites exactly the trailing blanks, nothing outside the string |
| Property.SplitLine | Superuser/jni/su/utils.c:63-78 | key and value of the line, trimmed in place, exactly when it has them; later lines stay as they were |
| Property.FindValue | Superuser/jni/su/utils.c:61-84 | the trimmed value of the first line that is no comment and whose trimmed key starts with the search key |
| Property.GetProperty | Superuser/jni/su/utils.c:56-98 | that value, or the default, or -1 with the result buffer untouched when the value is too long |
| Property.CheckProperty | Superuser/jni/su/utils.c:107-112 | true exactly when the text occurs in the data |
| Property.LookupImpliesCheck | Superuser/jni/su/utils.c:100-112 | whenever the lookup finds a match, the cheap check answers yes |
| Property.CheckWithoutLookup | Superuser/jni/su/utils.c:100-106 | the converse fails for a commented-out key, and for a text inside a value |
| Property.EntryIff | Superuser/jni/su/utils.c:67-80 | a line matches exactly when the search key stands at the start of its key, in the untrimmed text |
| Property.EntryValue | Superuser/jni/su/utils.c:67-84 | the value of a line is the text behind its first '=' without the blanks at both ends |
| Property.LookupIff | Superuser/jni/su/utils.c:61-84 | for every search key, the lookup finds a match exactly when some finished line has it at the start of its key |
| Property.LookupFirst | Superuser/jni/su/utils.c:61-84 | what the lookup returns is the value of the first line with the key at its start, and no earlier line has it |
| Property.CheckAgreesIff | Superuser/jni/su/utils.c:100-112 | check and lookup agree exactly when the text occurs nowhere or at the start of some line's key |
| Property.PlainLookupIff | Superuser/jni/su/utils.c:56-112 | for keys without blanks, '=' and comment sign: a match exactly when an occurrence has only blanks before it on its line and '=' and a newline behind; check yes and lookup none exactly when the text occurs, but never so |
| Copying.ByteBuffer.Compact | Superuser/src/com/koushikdutta/superuser/util/StreamUtility.java:34-36 | what is left moves to the front, position, limit and capacity stay ordered |
| Copying.ReadConserves | Superuser/src/com/koushikdutta/superuser/util/StreamUtility.java:29 | destination, buffer and unread source still make up the source after a read |
| Copying.WriteConserves | Superuser/src/com/koushikdutta/superuser/util/StreamUtility.java:33 | and after a partial write |
| Copying.FastChannelCopy | Superuser/src/com/koushikdutta/superuser/util/StreamUtility.java:27-44 | for every pattern of partial reads and writes the destination gets the source whole and in order, and the loops end |
| Copying.OutFd.WriteBlocking | Superuser/jni/su/pts.c:38-49 | 0 with everything written, or -1 with a proper prefix |
| Copying.PumpEx | Superuser/jni/su/pts.c:55-63 | the output is what was read, or a prefix of it after a write error; the input is closed once, the output exactly when asked |

## Left out

- The SQLite engine: a query is a list of rows, `uid_policy` a list of rows with replace semantics, and the row that the
  engine refuses during `.import`, if any, is a parameter; the early exits of `.import` for an empty separator, a bad table
  or an unreadable file are not modelled.
- `fork`, `exec`, signals, mounts, sessions, terminal ioctls and `waitpid` are steps with arbitrary results; the options
  that `getopt_long` finds are given.
- Argv.SuRequest.Allow: the forms `-cCOMMAND` and `--command=COMMAND` take one slot only and break the rewriting of `argv`,
  so three consumed slots are asked for when there is a command.
- Allocation failure, and overflow of C ints by texts of 2^30 bytes or more.
- NUL bytes inside files and cells, NULL cells in the CSV round trip, and separators with a NUL, a newline or a double quote.
- Texts given to `resolve_backslashes` that end in an unpaired backslash, where the original reads past the terminator;
  bytes are unsigned, where the original widens a plain char.
- BLOB values in insert mode, the other display modes, the remaining dot-commands, statistics and timers.
- Policy.CallbackData.DatabaseCallback: a NULL `policy` column, on which the original dereferences NULL, is excluded.
- Argv.SuRequest.ScanPositional: looking a user up by name and then by number is one given map.
- Decimal.AtoiInverts: atoi on texts beyond the range of an int is not modelled; `until` always comes from an int.
- Protocol.NoDeadlock: capacity of the socket buffers is not modelled, so a client write never waits; the client's pump is
  in the session of `Terminal`, whose Terminal.StuckIff covers it.
- Protocol.EveryRunEnds: the moves of child and pump are counted in Terminal.EveryTerminalRunEnds.
- Terminal.StuckIff: capacity of the terminal's buffer, window sizes and the thread that forwards the client's input are not
  modelled; that a read of the master waits until the slave has been opened is how the terminal device is taken to behave.
- ChildStreams.FdTable.Child: the kernel's choice of descriptor numbers is a parameter; the controlling terminal and
  `mount_emulated_storage` are not modelled.
- Framing.DataInput.ManageSocket: Java's decoding of bytes to strings is the identity, and a leading plus sign in a number,
  accepted by newer runtimes, is refused; the version notification is not modelled.
- Answer.Activity.Run: of the views only what decides an answer is kept; settings, the permission checks behind automatic
  responses and the countdown's text enter as event parameters.
- PolicyTable.SuDatabase.OnUpgrade: moving logs and settings out of the database in version 3 is not modelled.
- Copying.FastChannelCopy: writes of a non-empty buffer are taken to make progress, a source returns no bytes only a bounded
  number of times, and I/O exceptions are not modelled.
- Installer, reboot tool, settings, log views, icon cache and HTTP helpers: plumbing without a hard property.
