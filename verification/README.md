# A Dafny model of Kibosh

Kibosh is a fault-injecting pass-through file system. Faults are configured by writing JSON to a virtual
control file; afterwards reads and writes of files whose path matches are refused, delayed or corrupted. This
project models the parts of it that carry the logic and proves what they are for:

* **The JSON parser** (`json.c`). A flag machine reads the text twice: the first pass builds nodes and counts,
  the second allocates exactly what was counted and fills it. `JsonMachine` is that machine as a function on an
  arena of nodes, with a bad memory access (outside an allocation, through a null or released node) as an outcome
  of its own; `JsonParser` is the imperative code, refined step by step to the machine; `JsonReference` is a
  recursive descent parser written independently of both. The three are proved equal on every text. The reference
  in turn is tied to a grammar of concrete syntax: every text of it is read as its meaning (`JsonGrammarReads`),
  and every accepted text is a text of it (`JsonGrammarSound`); `JsonText` states this from the text to the nodes
  in memory. `JsonRfc` relates it to RFC 8259: which texts of the RFC are accepted, and which of those are read as
  the tree they denote, both as an if and only if; `JsonDecimal` says what a number denotes by its digits.
  `JsonFree` is the loop that releases a tree without a stack.
* **Faults** (`fault.c`, `util.c`). Reading them from a tree, writing them, when the one undoes the other, which
  fault an operation meets under a stream of random draws, what applying it does to the bytes and to the fault.
  `FaultMeaning` says which objects configure which faults and `FaultFormat` how faults are spelled.
* **The control file** (`fs.c`, `io.c`) **and the data path** (`file.c`). `Control` is a state machine whose steps
  are the sections under the lock and the system calls outside it, so its runs are all interleavings;
  `ControlRuns` proves what holds in every reachable state and over every run; `KiboshFs` is the imperative code,
  each operation tied to the steps it performs, over a kernel with short transfers, interruptions and errors.
* **The cache dropping thread** (`drop_cache.c`), as a machine over the steps of the two threads, and **the signal
  safe number printer** (`log.c`).

Bytes are `char`, C strings are texts cut at NUL, pointers into the node heap are indices of an arena and NULL is
-1. Integers wrap explicitly where the source's do. `double` is `real`, with `pow (10, n)` exact. The random
generator, the kernel's choice of transfer sizes and errors, the descriptor numbers it hands out and the text that
`%g` prints are parameters.

Where code and documentation disagree the model follows the code:

* `fault.h:61` says that CORRUPT_DROP silently drops bytes; a write under such a fault is stored in full
  (`DroppedWriteStored`).
* `kibosh_read` is meant to return the number of bytes read; if several transfers fill a request it returns the
  size of the last one (`ReadReportsAll` says exactly when).
* `faults_parse` does not undo `faults_unparse` for every list: the text of a delay has a stray letter after the
  number, that of a corrupt fault lacks the count, and quotes and backslashes in paths are not escaped
  (`RoundTripExact` says exactly which lists survive).
* RFC 8259 lets any \u escape stand alone; the parser rejects a surrogate that no \u escape follows
  (`LoneRejected`), and joins a well-formed pair to the right code point only if bit 0x40 of the high surrogate is
  clear (`AstralMisread`). `RfcDocumentRead` has the exact conditions.
* If opening the control file fails, `kibosh_open_control_file_impl` frees the file object and then returns a field
  of it (`file.c:63-64`). The value is a parameter of `OpenControl`, so the model promises nothing about the code
  that a failed open returns, not even its sign.
* Releasing an accessor that nobody wrote to can still change the configuration, namely when another release
  installed a different text since it was opened (`UnwrittenRelease`, `StaleReinstalls`).

## Model

| member | source | states |
|---|---|---|
| `JsonEscape.EscapeCount` | json.c:288-381 | For every escape, the number of bytes the first pass adds to the length is the number of bytes the second pass writes. |
| `JsonMachine.StepDecreases` | json.c:274-276 | Every step of the flag machine, on any text and from any state, decreases an explicit measure, through the steps that do not consume a byte. |
| `JsonNumbers.NumberRun` | json.c:735-843 | From the first byte of a number the first pass rejects exactly where the reference does; otherwise it ends at the same byte with the sign, digits, fraction and exponent assembled to the reference's value, wrapping included. |
| `JsonPassOne.ValueRun` | json.c:514-733 | The first pass over any value, at any depth, appends exactly the counted nodes of the value the reference reads, or rejects where the reference does. |
| `JsonPassOne.PassOneCorrect` | json.c:262-908 | For every text the first pass rejects if and only if the reference does, never makes a bad memory access, and leaves for each value one node with its counts, chained in text order. |
| `JsonPassTwo.SkipExact` | json.c:647-663 | The loop by which the second pass skips a number stops exactly where the first pass ended it. |
| `JsonPassTwo.FillValue` | json.c:103-193 | The second pass over any value pops the nodes the first pass made for it, in order, and turns them into the filled nodes of the value, every write inside what was counted. |
| `JsonPassTwo.PassTwoCorrect` | json.c:856-905 | On every accepted text the second pass writes nothing out of bounds, ends with the allocation list exhausted and leaves exactly the filled layout: every length equals its count, every slot and name is set. |
| `JsonMemory.RepresentsOne` | json.c:867-899 | What lies behind a node pointer determines the tree: no memory represents two different values. |
| `JsonMemory.TreeRepresents` | json.c:406-419 | The filled layout represents its value: payloads, terminated strings and names, members and elements in order, parent pointers. |
| `JsonParser.Parser.NewValue` | json.c:103-193 | new_value performs the machine's allocation or pop on the node arena, the allocation list and the root. |
| `JsonParser.Parser.HandUp` | json.c:871-899 | The finished value is stored in the next slot of its parent, and the parent's length goes up by one. |
| `JsonParser.Parser.Advance` | json.c:856-902 | The code under flag_next is the machine's Next: to the parent, or to the end of the document. |
| `JsonParser.Parser.Hex4` | json.c:301-313 | Four hex digits are read exactly when four follow, and give the code of the reference. |
| `JsonParser.Parser.CodePoint` | json.c:299-333 | The code point of a \u escape, or of a pair of them, is that of the reference, or the escape is rejected with it. |
| `JsonParser.Parser.EscapedByte` | json.c:288-381 | Handling the byte after a backslash is the machine's step. |
| `JsonParser.Parser.StringByte` | json.c:278-433 | Handling a byte inside a string is the machine's step. |
| `JsonParser.Parser.Quote` | json.c:389-426 | Closing a string terminates and counts it and, for a name, records its place and length. |
| `JsonParser.Parser.EndName` | json.c:406-419 | A finished name is counted in the first pass and entered with its place and length in the second. |
| `JsonParser.Parser.SeekByte` | json.c:514-562 | Handling a byte where a value is expected is the machine's step: white space, brackets, commas, colons. |
| `JsonParser.Parser.ValueByte` | json.c:564-687 | Handling the first byte of a value is the machine's step. |
| `JsonParser.Parser.LiteralValue` | json.c:595-638 | The lookahead for true, false and null accepts exactly the spelled word and never reads behind the end. |
| `JsonParser.Parser.Spell` | json.c:597-631 | The lookahead succeeds exactly on the word, letter by letter, and never passes the terminator. |
| `JsonParser.Parser.NumberValue` | json.c:640-681 | Starting a number is the machine's step in both passes, with the skip loop of the second. |
| `JsonParser.Parser.SkipDigits` | json.c:649-659 | The skip loop leaves the pointer at the first byte that no number contains, or at the end. |
| `JsonParser.Parser.NumberByte` | json.c:735-848 | Handling a byte of a number is the machine's step. |
| `JsonParser.Parser.DigitByte` | json.c:738-767 | A digit goes to the integer, the fraction or the exponent, and a digit after a leading zero is rejected. |
| `JsonParser.Parser.MantissaEnd` | json.c:795-822 | The end of the digits adds the fraction and starts the exponent or ends the number. |
| `JsonParser.Parser.ExponentEnd` | json.c:823-843 | The end of the exponent scales the number and ends it. |
| `JsonParser.Parser.ObjectByte` | json.c:693-733 | Handling a byte between the members of an object is the machine's step. |
| `JsonParser.Parser.Turn` | json.c:274-903 | One turn of the loop body is one step of the machine, whatever combination of flags is reachable. |
| `JsonParser.Parser.Pass` | json.c:274-905 | A whole pass is the machine's run, and terminates. |
| `JsonParser.StepLinks` | json.c:187-190 | Every step of the first pass keeps the allocation list complete and acyclic, on accepted and rejected texts alike. |
| `JsonParser.Parser.Discard` | json.c:935-943 | After a rejection the cleanup loop releases every node made so far, each once. |
| `JsonParser.ParseEx` | json.c:222-949 | For every text the two passes return NULL exactly when the reference rejects, having released everything once, and otherwise a pointer to memory that represents the reference's tree. |
| `JsonGrammarReads.DocumentRead` | json.c:262-908 | Every text of the grammar, in any spelling and white space, is accepted and read as its meaning, members in order. |
| `JsonGrammarSound.DocumentSound` | json.c:262-908 | Every accepted text without NUL is white space around a text of the grammar, and is read as that text's meaning. |
| `JsonText.TextRead` | json.c:222-243 | Every text of the grammar, white space around it, is accepted as its meaning by the whole parser, byte order mark test included. |
| `JsonText.BomRead` | json.c:235-243 | The bytes EF BB BF before a text make no difference, and a text that does not start with them is read whole. |
| `JsonText.Language` | json.c:222-908 | A text without NUL is accepted if and only if, less its byte order mark, it is a text of the grammar. |
| `JsonText.Parse` | json.c:951-955 | The call returns a root exactly for the texts of the grammar, and memory that represents their meaning. |
| `JsonDecimal.SmallNumeral` | json.c:757-765 | With at most 18 digits in each part of a number the 64-bit accumulators and the scaling give the number its digits spell: the integer of whole part and fraction, shifted by the exponent less the number of fraction digits. |
| `JsonDecimal.NumberRead` | json.c:735-843 | Every number of RFC 8259 with at most 18 digits in each part is read as a value v with v * 10^d = i * 10^e, where i is the signed integer that the digits before and after the point spell together, d the number of digits after the point and e the exponent; an integer node exactly if there is neither point nor exponent. |
| `JsonRfc.CodeSpelled` | json.c:48-62 | Four hex digits, in either case, are read as the base 16 number they spell. |
| `JsonRfc.HexSpelled` | json.c:301-313 | Four characters are taken for a code exactly if each is 0 to 9, a to f or A to F. |
| `JsonRfc.EscapeSpelled` | json.c:292-380 | Each two-character escape of section 7 of RFC 8259 is read as the byte that section names. |
| `JsonRfc.SpaceSpelled` | json.c:195-197 | White space is space, tab, line feed and carriage return, as in section 2 of RFC 8259. |
| `JsonRfc.ValueDies` | json.c:315-326 | A value of RFC 8259 with a surrogate escape that no \u escape follows, at any depth, in a string or a name, is rejected. |
| `JsonRfc.PiecesMean` | json.c:315-374 | A string of RFC 8259 with paired surrogates is read as its code points by section 2.2 of RFC 2781 if and only if no high surrogate has bit 0x40. |
| `JsonRfc.RfcDocumentRead` | json.c:262-908 | Every text of RFC 8259 is accepted if and only if each surrogate escape is followed by another \u escape; if surrogates are paired and numbers have at most 18 digits in each part, it is read as the tree it denotes, with numbers by their digits, if and only if no high surrogate has bit 0x40. |
| `JsonRfc.LoneRejected` | json.c:315-326 | The text of a lone surrogate is in the grammar of RFC 8259 and is rejected. |
| `JsonRfc.AstralMisread` | json.c:332 | The text of U+20000 as a surrogate pair is accepted and not read as U+20000. |
| `JsonText.RfcRead` | json.c:222-908 | The same for the whole parser, byte order mark test included. |
| `JsonBounds.PassBound` | json.c:274-903 | Each pass over any text of n bytes ends within 2(n + 1) + 1 turns. |
| `JsonBounds.PointerInside` | json.c:274-276 | In both passes over any text, every turn of the loop is at a byte of the text or at its terminator, never behind it. |
| `JsonBounds.LookTwice` | json.c:850-854 | The pointer never moves back over a turn, and no byte is looked at more than twice in spite of the un-read steps. |
| `JsonBounds.EncodeIsUtf8` | json.c:335-374 | What is written for a code point is its encoding by section 3 of RFC 3629, decodes to it and has the counted length. |
| `JsonBounds.FourHexBound` | json.c:301-313 | Four hex digits give at most 0xFFFF, so a single escape never takes four bytes. |
| `JsonBounds.PairsWithOr` | json.c:315-333 | A well-formed surrogate pair gives the code point of section 2.2 of RFC 2781 if and only if bit 0x40 of the high surrogate is clear. |
| `JsonBounds.PairMisread` | json.c:332 | The pair for U+20000 is read as another code point. |
| `JsonFree.ReleaseDecreases` | json.c:966-1004 | Every turn of the releasing loop decreases an explicit measure on any heap, trees or not. |
| `JsonFree.FreeTree` | json.c:966-1004 | On any laid out tree the loop reaches the parent having released exactly the tree's nodes and changed nothing else but lengths. |
| `JsonFree.OrderOnce` | json.c:966-1004 | The order of release names every node and every owned buffer of the tree exactly once. |
| `JsonFree.ReleaseOne` | json.c:968-1003 | One turn of the loop is one step of the releasing machine: down to the last child, or release and up. |
| `JsonFree.FreeEx` | json.c:957-1005 | For every tree the loop never touches a released node, releases every node and buffer once, children before parents, and leaves all other nodes alone. |
| `JsonFreeParsed.FreeParsed` | json.c:957-1005 | Applied to what the parser returns it releases one node for each value and every string, array and object buffer. |
| `FaultParser.GetChild` | util.c:79-92 | get_child finds the first member of that name, names compared as C strings, or nothing if there is none or no object. |
| `FaultParser.DupString` | util.c:94-112 | dup_json_str_value gives the string up to its first NUL, the default for a missing member, an error for any other type. |
| `FaultParser.ParseFault` | fault.c:620-648 | The parser chosen by the type member gives the fault of the tree, for all six kinds, or nothing; `FaultIs` says which objects are which faults. |
| `FaultMeaning.FaultIs` | fault.c:620-648 | A tree is read as a fault if and only if it is an object whose first member named type is the name of the fault's kind, whose first members prefix and suffix are its paths (or are missing, for / and the empty path), and whose first members code, or delay_ms and fraction, or mode, count and fraction hold its numbers; order and further members do not matter. |
| `FaultMeaning.FaultRefused` | fault.c:620-648 | An object is refused if and only if it is that of no fault; a missing prefix gives / and a missing suffix the empty path. |
| `FaultParser.ParseArray` | fault.c:765-811 | The faults of an array are read in order, all or nothing. |
| `FaultMeaning.FaultsAre` | fault.c:765-811 | An array is read as a list of faults if and only if it has one object for each fault, in order. |
| `FaultParser.ParseFaults` | fault.c:813-850 | A text configures the faults of its tree, none if there is no such member, and is refused otherwise; the tree is released completely either way. `TextConfigures` says which faults these are. |
| `FaultMeaning.TextConfigures` | fault.c:813-850 | A text configures exactly the list fs if and only if it is read as an object whose first member faults is an array of the objects of fs, or an object without that member and fs is empty. |
| `FaultText.UnparseNothing` | fault.c:866-887 | The text of an empty list is the initial control text. |
| `FaultFormat.UnparseText` | fault.c:82-92 | The text of a fault of each kind, literally: type, prefix, suffix, then its numbers. |
| `FaultFormat.NumberText` | fault.c:173-185 | The numbers of each kind, literally, with the stray d after a delay and without the count of a corrupt fault. |
| `FaultFormat.ListText` | fault.c:852-900 | The text of a list: its faults in order, a comma and a space between two. |
| `FaultText.FaultWrite` | fault.c:82-92 | A fault that is no delay is written as a JSON object that is read as the same fault exactly if it is an error code. |
| `FaultRoundTrip.DelayRejected` | fault.c:173-185 | A list with a delay anywhere in it is written as a text that the parser rejects. |
| `FaultRoundTrip.RoundTrip` | fault.c:852-900 | For every list with paths free of quotes, backslashes and NUL, parsing what was written gives the list back if all its faults are error codes and is refused otherwise. |
| `FaultExact.BodyShort` | json.c:383-431 | A string whose bytes are not all plain is read back shorter than it was written, or up to the quote that opens the next name, or not at all. |
| `FaultExact.BadValue` | fault.c:82-92 | A fault with a quote or backslash in a path is never read back as the fault it was written for. |
| `FaultExact.RoundTripExact` | fault.c:813-900 | For every list that memory can hold, parsing what was written gives the list back if and only if all its faults are error codes and no path has a quote or a backslash. |
| `FaultPrinter.JoinStrs` | util.c:60-77 | join_strs allocates and fills exactly the concatenation and its terminator. |
| `FaultPrinter.UnparseFaults` | fault.c:852-900 | The pieces and separators that are joined are the text of the list. |
| `FaultEngine.Matches` | fault.c:675-698 | A fault matches by operation, prefix and suffix, a delay only under a draw; exactly that draw is taken. `ConcernsIs` gives the condition. |
| `FaultEngine.ConcernsIs` | fault.c:103-106 | A fault concerns an operation if and only if it is of the operation's side, the path is its prefix and something more, and the path is something and its suffix. |
| `FaultEngine.FindFirst` | fault.c:902-914 | The fault found is the earliest that acts: it concerns operation and path and, for a delay, its draw is at most its fraction, where its draw comes after one for each delay concerned before it; every earlier fault does not act; and exactly those draws are taken. |
| `FaultEngine.FirstIsEarliest` | fault.c:902-914 | The search used in the specifications finds exactly the earliest fault that acts, in terms of prefixes, suffixes and draws. |
| `FaultEngine.SureStops` | fault.c:902-914 | A fault that concerns the operation, if it is no delay or one of fraction 1, is never passed over. |
| `FaultEngine.Untouched` | fault.c:902-914 | If no fault concerns the operation none is found and no draw is taken. |
| `FaultEngine.FirstConcerns` | fault.c:916-955 | What is found for a read is a read fault and for a write a write fault, so the default arms of both apply functions are not reached. |
| `FaultEngine.FirstUnique` | fault.c:902-914 | The stream of draws determines which fault is found and how many draws are taken. |
| `FaultEngine.FirstIsFirst` | fault.c:902-914 | The recursive choice used in the specifications is that earliest match. |
| `FaultEngine.CorruptBuffer` | fault.c:969-1005 | For every buffer, mode and stream the bytes, the length and the number of draws are those of the specification, and bytes behind the given size stay; `CorruptedLength` and `CorruptedBytes` say what these are. |
| `FaultEngine.CorruptedLength` | fault.c:969-1005 | The length is the size except for DROP, which changes nothing and reports the greatest whole number up to draw times size; unknown modes do nothing. The draws of ZERO, ZERO_SEQ, RAND and DROP are counted. |
| `FaultEngine.CorruptedBytes` | fault.c:973-1000 | Byte by byte: ZERO zeroes byte i if draw i is at most the fraction; RAND replaces it, by the next drawn byte, if its own draw is; the sequential modes keep byte i if and only if i + 1 is at most draw times size and overwrite the others with zeros or successive drawn bytes. |
| `FaultEngine.WholeFraction` | fault.c:974-988 | At fraction 1 ZERO zeroes every byte and RAND replaces every byte. |
| `FaultEngine.RandSeqCalls` | fault.c:990-994 | RAND_SEQ draws once for the place and once for each byte from there on. |
| `FaultEngine.Countdown` | fault.c:481-494 | After k applications a corrupt fault with count n >= 0 has its own mode and count n - k if k <= n, else DROP with fraction 1; a negative count never changes. |
| `FaultEngine.ApplyRead` | fault.c:916-934 | apply_read_fault turns the bytes read, the result, the delay and the fault into those of the specification. |
| `FaultEngine.ApplyWrite` | fault.c:936-955 | apply_write_fault does the same for writes and leaves the caller's buffer alone: corruption happens in a private copy. |
| `FaultEngine.AppliedAnswers` | fault.c:916-955 | An error fault answers minus the absolute value of its code, a delay hands on all bytes after its time, a corrupt fault corrupts with its mode and fraction, or drops if its count is 0. |
| `Io.OverwriteAt` | io.c:31-46 | Writing at an offset changes exactly the bytes written and fills a gap with zeros. |
| `Io.OverwriteMore` | io.c:35-43 | Consecutive short writes amount to one write. |
| `Io.SafeWrite` | io.c:31-46 | Under every script of short transfers and interruptions all bytes are written at the offset; on an error a proper prefix of them. |
| `Io.SafeRead` | io.c:67-85 | All bytes up to the requested count or the end of the file are read, and no others, or an error is returned. |
| `Io.FoundAt` | io.c:67-85 | What a read finds are the bytes from the offset on, as many as asked for or as there are. |
| `Io.ReadString` | io.c:87-95 | The buffer holds the C string of the first length - 1 bytes of the file. |
| `Io.Duplicate` | io.c:116-129 | Everything from the source's offset to its end is written to the destination, for any length, offset and script. |
| `ControlRuns.DescriptorsKept` | fs.c:239-245 | Every step keeps the ownership of descriptors: control is an open memfd nobody else has, handles have distinct open descriptors, no memfd is unowned. |
| `ControlRuns.MemfdsExact` | fs.c:185-225 | The open memfds are the control descriptor and one for each accessor, and their number is one more than that of the accessors. |
| `Control.TextIs` | fs.c:258-268 | The text read from a control file is the longest start of it without NUL that leaves room for the terminator in 16384 bytes. |
| `Control.TruncatedAt` | file.c:205-217 | Truncating a file sets its size, keeps what was there and fills up with zeros. |
| `ControlRuns.ReleaseCloses` | fs.c:284-290 | A release closes exactly one descriptor, the replaced one if it installs and its own if not, never the one then installed. |
| `ControlRuns.Reachable` | fs.c:99-144 | In every state reachable by any interleaving the current text is the first 16383 bytes of the installed control file cut at NUL, it parses, and the memfds are as above. |
| `ControlRuns.StepCounts` | fs.c:258-288 | An event that does not install leaves text, control descriptor and faults alone, except for one countdown of the fault it applies. |
| `ControlRuns.QuietRun` | fs.c:270-282 | While nothing is installed the text stays and fault i is the installed one counted down once for each time it was applied. |
| `ControlRuns.LastInstallExact` | fs.c:258-288 | The computed index is that of the last installing event: it installs and nothing after it does. |
| `ControlRuns.Decided` | fs.c:258-288 | Over every run the text in force and the faults are those of the last release, in lock order, whose text differed and parsed, counted down since; with no such release, the initial ones. |
| `ControlRuns.CountdownOverRun` | fault.c:589-615 | In any run over any fault list the k-th application of a corrupt fault since its install corrupts with the configured mode and fraction if k <= n or n < 0, and with DROP afterwards. |
| `ControlRuns.UnwrittenRelease` | fs.c:265-274 | Releasing a populated accessor that was never written installs if and only if the current text differs from the one it was populated from. |
| `ControlRuns.UnwrittenNoOp` | fs.c:196-217 | Opening without O_TRUNC, not writing and releasing with no install in between changes neither text nor faults nor the control descriptor, whatever else is interleaved. |
| `ControlRuns.StaleReinstalls` | fs.c:270-284 | An unwritten accessor opened before somebody else's install puts the old text back. |
| `KiboshFs.ReadReportsAll` | file.c:246-257 | Without errors the read loop reports all bytes found if and only if it met the end of the file or one transfer filled the request. |
| `KiboshFs.ReadMisreports` | file.c:247-257 | Two bytes found, read one at a time into a request for two, are reported as one. |
| `KiboshFs.ReadFails` | file.c:247-252 | A transfer that fails while bytes are unread makes its error the result, whatever was read before. |
| `KiboshFs.PreadLoop` | file.c:247-257 | The bytes found are in the buffer, the rest of it is unchanged, and the result is that of the specification for every script. |
| `KiboshFs.PwriteLoop` | file.c:335-343 | The file is the old one overwritten at the offset with exactly as many bytes as reported, all of them if no transfer fails. |
| `KiboshFs.FileSystem.Alloc` | fs.c:54-146 | A new file system is in the initial state of the protocol, or no descriptor is left open. |
| `KiboshFs.FileSystem.AccessorAlloc` | fs.c:185-225 | A new accessor holds exactly what the control file holds, wherever that file's offset was, or nothing if not populated; on an error its descriptor is closed. |
| `KiboshFs.FileSystem.OpenControl` | file.c:52-68 | Opening the control file performs the protocol's creation and population steps and returns 0, or makes no handle, changes nothing and returns whatever the freed file object holds; without failing transfers it succeeds. |
| `KiboshFs.FileSystem.AccessorRelease` | fs.c:247-292 | A release installs text, faults and descriptor exactly if the first 16383 bytes cut at NUL differ from the current text and parse, closes one descriptor, and without I/O errors fails exactly for a differing text that does not parse. |
| `KiboshFs.FileSystem.Release` | file.c:287-308 | Releasing a handle performs the protocol's release and close steps; a data file is only closed. |
| `KiboshFs.FileSystem.InjectRead` | file.c:264-270 | The section of a read under the lock is the protocol's fault step on the bytes read, with its outcome for the caller; `ServeIs` says what that is. |
| `KiboshFs.FileSystem.Read` | file.c:234-285 | A read that gets no bytes leaves faults, countdowns and draws untouched. Any other hands on what the earliest acting fault answers: minus the absolute value of the code, all bytes after the delay, or the corrupted bytes and length. If no fault concerns it, the result is that of the transfers, there is no delay, the buffer holds the bytes found and the state stays. |
| `KiboshFs.FileSystem.InjectWrite` | file.c:322-328 | The section of a write under the lock is the protocol's fault step, and the bytes to write are the caller's or a private copy. |
| `KiboshFs.ServeIs` | file.c:264-270 | Everything at once is served if no fault acts, and otherwise the answer of the earliest that does. |
| `KiboshFs.SparedServes` | file.c:322-328 | If no fault concerns the operation all bytes are served without delay, and no draw is taken or count changed. |
| `KiboshFs.FileSystem.Write` | file.c:310-357 | Unless a fault refuses it, with minus the absolute value of its code, k is returned and exactly the first k bytes that the earliest acting fault hands on, or of the caller's if none acts, stand at the offset, all else unchanged, for every script of short writes and errors; the caller's buffer is not modified. |
| `KiboshFs.DroppedWriteStored` | file.c:329-343 | Under a write fault in DROP mode the protocol's steps leave the caller's bytes at the offset unchanged, all of them if no transfer fails, although the fault reports less. |
| `DropCache.InvKept` | drop_cache.c:52-83 | Every step of either thread keeps the invariant that ties lock, stop flag, positions, late drops and lifetimes together. |
| `DropCache.Safe` | drop_cache.c:149-160 | In every interleaving: no lock is held while dropping, once stop is set the thread waits only if the signal is about to be sent, at most one further drop begins, and lock, condition, path and struct go only after the thread has exited and are never used after. |
| `DropCache.StopsSoon` | drop_cache.c:59-80 | After stop the thread takes at most seven more steps whatever the other thread does. |
| `DropCache.NeverStuck` | drop_cache.c:149-154 | Until the thread has exited it can take its next step or the joiner who has the lock can, and afterwards the joiner can go on to the end. |
| `DropCache.OneDropBetweenChecks` | drop_cache.c:59-80 | In every interleaving exactly one drop begins between one check of the stop flag and the next, and none before the first. |
| `DropCache.StoppedDrops` | drop_cache.c:59-80 | From any stopped state to the exit one drop begins if the thread was in its wait or between it and its drop, and none otherwise. |
| `Digits.DigitsRoundTrip` | log.c:85-107 | The digits of a number read back to it. |
| `Digits.Canonical` | log.c:85-107 | A numeral without superfluous zeros is the only one of its value. |
| `Log.WriteBackwards` | log.c:90-98 | The first loop leaves the reversed canonical digits, or stops at the end of the buffer exactly if digits and terminator do not fit. |
| `Log.ReverseInPlace` | log.c:100-104 | The swaps reverse the digits in place and touch nothing else. |
| `Log.ToString` | log.c:85-107 | For every uint32 and buffer length >= 1: -ENAMETOOLONG exactly if digits and NUL do not fit, otherwise the terminated canonical decimal, which reads back to the value, and its length. |

## Left out

- Out of memory, `max_memory`, and the overflow exits for strings and containers of 2^32 - 9 or more parts in the JSON parser; the cleanup after a failure in the second pass (`json.c:945-946`) is reached only from these.
- JSON comments, custom allocators, `value_extra` and source tracking, which the program never enables; error messages, line and column numbers.
- IEEE rounding: doubles are exact rationals, and `%g` is any function into JSON numbers.
- The node heap is an arena of values indexed by pointers that a pass updates as a whole sequence, not a heap of objects; `JsonFree.FreeEx` takes it as a sequence too.
- `fault.c` structs are values that the countdown replaces in the list, not objects updated in place.
- Freeing of fault lists (`faults_free`, `fault.c:957-967`); the list that an install replaces is never freed by the code.
- File sizes and transfers beyond `INT_MAX`, and `buf_len` 0 in `read_string_from_fd` and `signal_safe_uint32_to_string`, which wraps.
- Failures of fcntl, lseek, close, memfd_create and of the mutex calls; the exit for read-only descriptors in `kibosh_fs_accessor_fd_release`, which memfds never take.
- `pwrite` and `pread` make progress: a transfer of a positive count moves at least one byte or fails.
- Signed overflow of the number accumulators, undefined in C, wraps.
- Sharing of one underlying data file between several handles: each handle has bytes of its own.
- `kibosh_fallocate`, `kibosh_fgetattr`, `kibosh_fsync`, `meta.c`, `main.c`, `conf.c`, `pid.c`, `signal.c`, `time.c` and the rest of `util.c`: one-call wrappers over system calls, option handling and logging.
- Starting the cache dropping thread, and the clock: the wait may end at any time.
