# LiteOS: JSON library, OTA packages and RAM file system

A model of three components of the LiteOS connectivity kit, each with proofs of what it is for.

**JSON (`Json*.dfy`).** `JsonText` is the language that cJSON reads, as functions on text;
`JsonRender` is what it prints.  `JsonRoundTrip` proves that reading undoes printing exactly up
to the nesting limit.  `JsonNumbers`, `JsonPieces` and `JsonLoose` say by syntax trees of their own
exactly which texts are accepted and as what; the texts of RFC 8259 (`JsonGrammar`) are among
them, what is printed is one of these (`JsonConforms`), and unformatted no text for the same value
is shorter (`JsonShortest`).  `JsonTree` is the nodes in memory: what value a tree stands for, edits of
the doubly linked lists and recursive copies.  `JsonParser` and `JsonPrinter` are the cursor
parser, which builds trees, and the growing print buffer, which walks them, both proved against
those functions; `JsonUnescape` is the string reader with its two loops and the size of its
allocation; `JsonUnicode` relates it to RFC 2781 and RFC 3629.  `JsonCompare` says what values
compare equal, `JsonNodes` compares trees and puts printing and parsing together, and
`JsonMinify` is the in-place minifier.  `JsonCompact` says what it takes away, that it takes
formatted text to unformatted, and how formatted text is laid out.

**OTA packages (`Ota*.dfy`).** `OtaWriterSpec` and `OtaWriter` are the block-staging flash writer
and `OtaWriterRuns` what whole runs of it deliver,
`OtaHeadSpec` and `OtaHead` the incremental head parser with its TLV walk, `OtaDeviceSpec` and
`OtaDevice` the device that ties them to the running checksum.  `OtaPackSpec` and `OtaPacker` are
the host script that writes packages.  `OtaUpgrade.PackAndInstall` joins both ends.  `OtaFlags` is
the upgrade record under them.

**File systems (`Vfs*.dfy`, `Ramfs*.dfy`).** `VfsProtocol` is the file table under two levels of
mutexes as a state machine in which every lock, unlock, read and write is a step of its own;
its theorems are about all interleavings, and in `VfsRuns` about whole calls within them.  `VfsPaths` and `VfsMount` are paths and the search
for the mount point.  `RamfsTree` and `RamfsEdit` are the RAM file system's pointer tree and the
map from component lists to elements it stands for; `RamfsSpec` says what each operation does to
that map, `Ramfs` is the operations.  `VfsRefs` and `Vfs` are the calls of the virtual file
system, one at a time, with the reference counts that guard removal.

`Basics` holds what all of them use.  Where the source updates objects in place the model does
too: parse and print buffers, list nodes, writer, head, device, flag record, element heap and
file table are classes whose methods are proved against functions of the old state; the lemmas
are about those functions.  `dafny verify dfyconfig.toml` checks the whole project.

## Findings

- The nesting limit is 10 here (`components/lib/cJSON/cJSON.h:137`), not the library's usual 1000.
- Texts are accepted beyond RFC 8259: any character up to the space passes for a blank, numbers such
  as `01`, `1.` and `-.5` are read, and strings may hold control characters.  `JsonLoose.TextExact`
  says exactly which texts are accepted, and as what.
- A `\u` literal with characters that are no hexadecimal digits is accepted and reads as code 0,
  which ends the string for a C reader (`JsonUnicode.MalformedHexReadsAsNul`).
- Minifying twice can differ from minifying once (`JsonMinify.MinifyTwiceDiffers`), exactly when
  a kept slash comes to stand in front of a kept slash or star (`JsonMinify.MinifyTwice`); texts
  that parse have none (`JsonMinify.ParsedJoinsNone`).
- Minifying reads past the terminator exactly when the text ends inside a string or a block
  comment (`JsonMinify.MinifyStops`, `JsonMinify.UnclosedReadsOn`,
  `JsonMinify.UnclosedCommentReadsOn`).
- A tree and its copy do not always compare equal: they do exactly when members with the same key
  are equal, in every object (`JsonNodes.CompareWithCopy`, `JsonNodes.UnevenCopy`).
- The end of a download does not always leave the writer's image in flash: a chunk behind a gap
  stages bytes of old flash, and when the block is then written whole the old stage is written
  over it (`OtaWriterRuns.GapLosesBytes`).  `OtaWriterRuns.RunExact` says, from block size and
  requests alone, for which runs over which flash the end is right; runs without gaps are among
  them (`OtaWriterRuns.RunDelivers`).
- The checksum is not always right after a piece of payload.  The first piece sent again is fed
  twice (`OtaDeviceSpec.ResentPieceIsFedTwice`); resuming elsewhere feeds as many bytes of flash
  as the package offset says, although that counts the head, and where flash ends before, not the
  piece (`OtaDeviceSpec.FedFrom`).  `OtaDeviceSpec.FedRight` says for every offset exactly when the
  checksum is right: for pieces that continue the stream, and by chance for some behind the end of
  flash (`OtaDeviceSpec.LastPieceAgain`).
- Lengths of pieces are cast to 16 bits on the way to head, writer and checksum, so a piece of more
  than 65535 bytes is cut, and behind the head it is accepted all the same
  (`OtaDeviceSpec.LongPiecesAreCut`).
- The packer ignores a failure to write TLVs (`components/ota/script/package_software.py:367`) and
  goes on with half of one (`OtaPacker.UnknownTypeIsRejected`).  An integer whose length is missing
  or larger than 4 is no failure: its error code 7 is counted as a length
  (`OtaPacker.MissingLengthIsMisread`).  `OtaPacker.PackedExact` says exactly when the file is still
  the package asked for.
- A reset of the upgrade record keeps the verify length it read.
- Replacing an object item that does not exist reports success (`JsonTree.ReplaceInObject`).
- Unregistering a mounted file system reports success and does nothing (`Vfs.Vfs.Unregister`).
- Mount points without components, such as `/`, may be mounted any number of times and are never
  found.

## Model

| member | source | states |
|---|---|---|
| JsonRoundTrip.RoundTrip | components/lib/cJSON/cJSON.c:1212-1717 | Parsing the printed text of any printable value, formatted or not, gives the value back exactly when its containers nest at most 10 deep; deeper values are rejected |
| JsonRoundTrip.ValueRoundTrip | components/lib/cJSON/cJSON.c:1212-1338 | Inside any text and at any depth, the parser reads exactly the printed form of a value and leaves what follows, or rejects it exactly when the nesting limit is passed |
| JsonRoundTrip.ArrayRoundTrip | components/lib/cJSON/cJSON.c:1341-1494 | The same for arrays: brackets, commas and blanks of either form are consumed, the depth is counted once per array |
| JsonRoundTrip.ItemsRoundTrip | components/lib/cJSON/cJSON.c:1358-1411 | Element lists are read back in order and in full, up to and including the closing bracket |
| JsonRoundTrip.ObjectRoundTrip | components/lib/cJSON/cJSON.c:1497-1717 | The same for objects, whose formatted form has line breaks and tabs between its parts |
| JsonRoundTrip.MemberRoundTrip | components/lib/cJSON/cJSON.c:1530-1570 | A key, its colon and its value are read back together |
| JsonRoundTrip.MembersRoundTrip | components/lib/cJSON/cJSON.c:1516-1582 | Member lists are read back in order, equal keys included |
| JsonRoundTrip.StringRoundTrip | components/lib/cJSON/cJSON.c:697-946 | Every NUL-free string survives escaping and unescaping, whatever follows the closing quote |
| JsonRoundTrip.EscapeScans | components/lib/cJSON/cJSON.c:711-802 | The scan for the closing quote stops exactly behind the escaped string, and the unescaped text is the original |
| JsonRoundTrip.NumberRoundTrip | components/lib/cJSON/cJSON.c:266-340 | A printed number token is read in full and nothing behind it is |
| JsonRender.RenderNulFree | components/lib/cJSON/cJSON.c:1267-1717 | Printed text holds no NUL, so a C reader sees all of it |
| JsonRender.EscapeLength | components/lib/cJSON/cJSON.c:839-889 | Escaping never shortens a string, and leaves a string as it is when it does not lengthen it, which is what lets the printer copy such a string unchanged |
| JsonUnescape.AllocationSuffices | components/lib/cJSON/cJSON.c:711-739 | For every literal, malformed \u sequences included, the unescaped bytes and the terminator fit into the allocation that the measuring loop sizes |
| JsonUnescape.UnescapeFits | components/lib/cJSON/cJSON.c:711-802 | The same from any point of the unescaping loop on: bytes written plus escapes counted never pass the length of the literal |
| JsonUnescape.LiteralFits | components/lib/cJSON/cJSON.c:577-695 | A \u literal writes at most as many bytes as positions it covers at which the measuring loop stops, however malformed its digits are |
| JsonUnescape.ParseHex4 | components/lib/cJSON/cJSON.c:540-574 | Four hexadecimal digits are their value; with any other character among them the result is 0 |
| JsonUnescape.WriteUtf8 | components/lib/cJSON/cJSON.c:646-688 | The loop that fills bytes from the back writes the UTF-8 form and touches nothing in front of it |
| JsonUnescape.Utf16LiteralToUtf8 | components/lib/cJSON/cJSON.c:577-695 | Writes the UTF-8 form of the code point that one or two literals name and reports 6 or 12 characters, or rejects them and reports 0 |
| JsonUnescape.Measure | components/lib/cJSON/cJSON.c:711-734 | Finds the closing quote that ends the literal and counts the escapes in front of it |
| JsonUnescape.UnescapeOne | components/lib/cJSON/cJSON.c:755-797 | One escape advances reader and writer in step with the definition and stays within the allocation |
| JsonUnescape.UnescapeInto | components/lib/cJSON/cJSON.c:746-802 | The whole loop produces the unescaped text within the allocation, or reports failure exactly when the literal is malformed |
| JsonUnicode.LiteralExact | components/lib/cJSON/cJSON.c:577-645 | A literal is read as a code point of some length exactly when that much of the string spells, in four hexadecimal digits each, the UTF-16 units of that scalar value (sections 2.1 and 2.2 of RFC 2781), or as code 0 when its first four characters are not all hexadecimal digits; lone, swapped and cut surrogates spell none and are rejected |
| JsonUnicode.SpelledReads | components/lib/cJSON/cJSON.c:577-645 | Every Unicode scalar value spelled as one or two \u literals is read back, consuming exactly the literals, whatever follows them |
| JsonUnicode.Utf8RoundTrip | components/lib/cJSON/cJSON.c:646-688 | The bytes written decode, by a decoder that rejects overlong forms, to the code point: section 3 of RFC 3629 |
| JsonUnicode.EscapedText | components/lib/cJSON/cJSON.c:746-802 | Any string of scalar values, spelled as \u literals in any case of digits, is unescaped to the concatenation of their UTF-8 forms |
| JsonUnicode.EscapedString | components/lib/cJSON/cJSON.c:697-824 | So the parser reads a quoted text of such literals as the string they stand for, up to its closing quote |
| JsonUnicode.HexRoundTrip | components/lib/cJSON/cJSON.c:540-574 | Four lower-case digits of a unit read back as the unit |
| JsonUnicode.MalformedHexReadsAsNul | components/lib/cJSON/cJSON.c:540-574 | A literal with any character that is no hexadecimal digit is accepted as code 0, wherever the string ends behind it |
| JsonUnicode.HexValues | components/lib/cJSON/cJSON.c:540-574 | The sixteen digits by their ASCII codes, in either case, and no other character; lower case is what is printed |
| JsonUnicode.BomIsUtf8 | components/lib/cJSON/cJSON.c:984-997 | The mark that is skipped is the encoding of U+FEFF |
| JsonPieces.StringExact | components/lib/cJSON/cJSON.c:697-824 | A string is read exactly when it is a quoted literal in which each backslash takes the character behind it with it and no quote is left over, and whose text is made of plain characters, the eight short escapes, \u literals and surrogate pairs, a backslash left over at the end taking the closing quote; and as what these stand for, up to the first NUL |
| JsonPieces.StringParses | components/lib/cJSON/cJSON.c:697-824 | Every string of section 7 of RFC 8259, each character plain, as a short escape, as a \u literal or as a pair of them, is read as the characters it stands for |
| JsonPieces.BadEscapeRejected | components/lib/cJSON/cJSON.c:793-797 | A backslash in front of any character but the eight letters and u makes the string fail, wherever it stands |
| JsonNumbers.DecimalReads | components/lib/cJSON/cJSON.c:266-340 | A token of at most 63 characters that strtod takes whole, built from sign, digits, point and exponent, is read whole, whatever follows that cannot go on a number |
| JsonNumbers.NumeralReads | components/lib/cJSON/cJSON.c:266-340 | So is every number of section 6 of RFC 8259 |
| JsonNumbers.NumeralPrints | components/lib/cJSON/cJSON.c:474-537 | One of at most 25 characters is a token that printing gives back |
| JsonNumbers.NumberShape | components/lib/cJSON/cJSON.c:266-340 | Conversely whatever is read as a number begins with such a token, and the token is what is read |
| JsonLoose.TextExact | components/lib/cJSON/cJSON.c:1000-1077 | A text is accepted, as a value, exactly when it is an optional byte order mark, blanks, the spelling of a syntax tree that stands for the value and nests at most 10 deep, and blanks; blanks are any characters up to the space, numbers what strtod takes, strings those of StringExact |
| JsonLoose.ValueRead | components/lib/cJSON/cJSON.c:1212-1603 | Whatever is read as a value, at any depth, is the spelling of a tree that stands for it, followed by what is left |
| JsonLoose.ValueParses | components/lib/cJSON/cJSON.c:1212-1603 | The spelling of every tree is read as the value it stands for, at any depth and in front of whatever cannot go on a number, exactly when the nesting limit allows it |
| JsonGrammar.TextParses | components/lib/cJSON/cJSON.c:1000-1077 | Every text of RFC 8259, with or without a byte order mark and with any choice of blanks, escapes and digits, is read as the value it stands for, exactly when its containers nest at most 10 deep |
| JsonConforms.PrintedIsJson | components/lib/cJSON/cJSON.c:1267-1717 | Whatever is printed, formatted or not, is a text of RFC 8259, and the value it stands for there is the one printed |
| JsonConforms.ConformingPrints | components/lib/cJSON/cJSON.c:1267-1338 | Values whose strings are C strings and whose numbers are numbers of RFC 8259 are printable |
| JsonShortest.PrintedIsShortest | components/lib/cJSON/cJSON.c:1267-1717 | No text of RFC 8259 for a value is shorter than its unformatted print: escapes are as short as they can be and nothing is printed that could be left out |
| JsonShortest.PiecesAreLonger | components/lib/cJSON/cJSON.c:839-941 | No way to spell a string is shorter than the escaped one |
| JsonCompact.FormattedLaid | components/lib/cJSON/cJSON.c:1435-1717 | Formatted text is the unformatted one laid out from left to right: a line and as many tabs as braces and brackets are open for every member and closing brace, a tab behind a colon, a blank behind a comma of an array, and nothing else added |
| JsonCompact.RenderLaid | components/lib/cJSON/cJSON.c:1435-1717 | The same for a value inside any text, at any depth |
| JsonParser.ParseBuffer.SkipWhitespace | components/lib/cJSON/cJSON.c:963-981 | The cursor stops at the first character above the space, or on the terminator |
| JsonParser.ParseBuffer.SkipUtf8Bom | components/lib/cJSON/cJSON.c:984-997 | A byte order mark in front of a text is skipped, and only there |
| JsonParser.ParseBuffer.CopyNumeric | components/lib/cJSON/cJSON.c:281-309 | At most 63 characters that can be part of a number are copied, without passing the terminator |
| JsonParser.ParseBuffer.ParseNumber | components/lib/cJSON/cJSON.c:266-340 | The cursor parser reads the number the text grammar names, or fails with it |
| JsonParser.ParseBuffer.ParseString | components/lib/cJSON/cJSON.c:697-824 | The cursor parser reads and unescapes the string the text grammar names and ends behind its closing quote, or fails with it |
| JsonParser.ParseBuffer.ParseValue | components/lib/cJSON/cJSON.c:1212-1264 | The tree built below the item stands for the value of the text grammar, remaining text and depth are those it says, and the parser fails exactly when it does |
| JsonParser.ParseBuffer.ParseElements | components/lib/cJSON/cJSON.c:1372-1400 | The loop over elements links a list of trees that stand for the values the grammar reads, from any cursor position |
| JsonParser.ParseBuffer.EnterList | components/lib/cJSON/cJSON.c:1346-1376 | How arrays and objects begin: the depth limit, the bracket and the blanks behind it |
| JsonParser.ParseBuffer.ParseArray | components/lib/cJSON/cJSON.c:1341-1432 | Arrays as in the grammar, as trees; the depth is restored on success |
| JsonParser.ParseBuffer.ParseEntry | components/lib/cJSON/cJSON.c:1530-1570 | One key and value as in the grammar, in one item, blanks around them skipped |
| JsonParser.ParseBuffer.ParseEntries | components/lib/cJSON/cJSON.c:1528-1574 | The loop over members links a list of items that carry the keys and stand for the values the grammar reads |
| JsonParser.ParseBuffer.ParseObject | components/lib/cJSON/cJSON.c:1497-1603 | Objects as in the grammar, as trees; the depth is restored on success |
| JsonParser.ParseWithOpts | components/lib/cJSON/cJSON.c:1000-1077 | With a terminated text required the tree stands for the value of the grammar for whole texts, otherwise for its first value, and there is none exactly when the grammar has none |
| JsonPrinter.PrintBuffer.Ensure | components/lib/cJSON/cJSON.c:373-458 | Growing keeps the text printed so far and makes room for the request and one byte more; it succeeds exactly when they fit the caller's buffer, or INT_MAX where memory can be had |
| JsonPrinter.PrintBuffer.UpdateOffset | components/lib/cJSON/cJSON.c:461-471 | After the repair the offset stands behind everything printed, wherever the last writer left it |
| JsonPrinter.PrintBuffer.CountEscapes | components/lib/cJSON/cJSON.c:839-870 | The number of extra characters is exactly how much escaping lengthens the string |
| JsonPrinter.PrintBuffer.WriteEscape | components/lib/cJSON/cJSON.c:893-941 | Writes exactly one character's escaped form; one byte behind it may be overwritten by a terminator |
| JsonPrinter.PrintBuffer.PrintStringPtr | components/lib/cJSON/cJSON.c:827-946 | Prints the quoted string behind what was printed; where no allocation fails it succeeds exactly when that and two bytes more fit |
| JsonPrinter.PrintBuffer.PrintValue | components/lib/cJSON/cJSON.c:1267-1338 | The buffer is what it was followed by the rendering of the value that the tree stands for; where no allocation fails this succeeds exactly when the rendering and two bytes more fit, and a caller's buffer is never written beyond its length |
| JsonPrinter.PrintBuffer.PrintArray | components/lib/cJSON/cJSON.c:1435-1494 | The same for arrays, the depth being as before afterwards |
| JsonPrinter.PrintBuffer.PrintElements | components/lib/cJSON/cJSON.c:1460-1482 | The walk along next appends exactly the renderings of the items and their separators; where no allocation fails it fails only when they do not fit |
| JsonPrinter.PrintBuffer.PrintMember | components/lib/cJSON/cJSON.c:1638-1690 | Indentation, key, colon, value and separator of one member in either form |
| JsonPrinter.PrintBuffer.PrintEntries | components/lib/cJSON/cJSON.c:1636-1694 | The walk along next appends exactly the rendering of all members |
| JsonPrinter.PrintBuffer.PrintObject | components/lib/cJSON/cJSON.c:1606-1717 | The same for objects, with line breaks and tabs when formatted |
| JsonPrinter.Print | components/lib/cJSON/cJSON.c:1087-1160 | Whenever text is returned it is the rendering of the value that the tree stands for, with or without reallocation; while memory can be had it is returned exactly for renderings that with two bytes more fit INT_MAX |
| JsonPrinter.PrintPreallocated | components/lib/cJSON/cJSON.c:1192-1209 | Succeeds exactly when the length is at least that of the rendering plus 2, leaves the terminated rendering, and never writes beyond the length |
| JsonMinify.MinifyKeepsMeaning | components/lib/cJSON/cJSON.c:2629-2697 | For every text that parses, the minified text parses to the same value, and minifying it again changes nothing |
| JsonMinify.MinifyTwice | components/lib/cJSON/cJSON.c:2629-2697 | For every text whose strings and comments are closed: a second call changes nothing exactly when no kept slash comes to stand in front of a kept slash or star |
| JsonMinify.ParsedJoinsNone | components/lib/cJSON/cJSON.c:2629-2697 | Every text that parses meets that condition |
| JsonMinify.MinifyTwiceDiffers | components/lib/cJSON/cJSON.c:2629-2697 | One text whose second minification differs: a slash, a blank and a slash become a comment |
| JsonMinify.ValueSurvives | components/lib/cJSON/cJSON.c:2629-2697 | Inside any text the minified form of a value reads as the same value and leaves the minified rest |
| JsonMinify.ItemsSurvive | components/lib/cJSON/cJSON.c:2629-2697 | The same for element lists, whose blanks leave |
| JsonMinify.MembersSurvive | components/lib/cJSON/cJSON.c:2629-2697 | The same for member lists; blanks in string literals stay |
| JsonMinify.StringCopies | components/lib/cJSON/cJSON.c:2668-2688 | String literals are copied as they are, escapes included |
| JsonMinify.MinifyStops | components/lib/cJSON/cJSON.c:2629-2697 | The loop stays in front of the terminator exactly when a scan from left to right, one character at a time, meets the terminator outside strings and block comments |
| JsonMinify.UnclosedReadsOn | components/lib/cJSON/cJSON.c:2668-2688 | A string that is never closed carries the loop past the terminator |
| JsonMinify.UnclosedCommentReadsOn | components/lib/cJSON/cJSON.c:2659-2667 | So does a block comment, for which the loop steps over two characters |
| JsonMinify.MinifyOne | components/lib/cJSON/cJSON.c:2634-2692 | One turn of the loop in place: what is written and what is still to be read together make up the result, and the writer is not ahead of the reader |
| JsonMinify.MinifyInPlace | components/lib/cJSON/cJSON.c:2629-2697 | For every text on which the loop stays in front of the terminator it leaves the minified text and touches nothing behind the original terminator |
| JsonCompact.MinifyStrips | components/lib/cJSON/cJSON.c:2629-2697 | The minified text is what a scan leaves that reads one character at a time and drops blanks, line comments and block comments outside strings |
| JsonCompact.MinifiedIsBare | components/lib/cJSON/cJSON.c:2642-2667 | Outside string literals the minified text has none of the four blanks, and no comment when none was joined |
| JsonCompact.FormattedShrinks | components/lib/cJSON/cJSON.c:2629-2697 | Minifying the print of a value, formatted or not, gives exactly its unformatted print |
| JsonNodes.Compare | components/lib/cJSON/cJSON.c:2799-2922 | Trees found equal stand for values that are equal up to the order of object members; the converse holds for values in which members with the same key are equal, and only such values are found equal by trees that share no node; a tree equals itself |
| JsonNodes.CompareWithCopy | components/lib/cJSON/cJSON.c:2550-2627 | A tree and its recursive copy compare equal exactly when, in every object at every depth, members with the same key are equal |
| JsonNodes.UnevenCopy | components/lib/cJSON/cJSON.c:2899-2914 | A value for which they do not: one key with two values |
| JsonCompare.NoDuplicatesConsistent | components/lib/cJSON/cJSON.c:2899-2914 | Values without duplicate keys are among those for which they do |
| JsonNodes.PrintAndParse | components/lib/cJSON/cJSON.c:1000-1717 | Printing a tree and parsing the text gives a new tree for the same value exactly when its containers nest at most 10 deep, and none otherwise |
| JsonTree.OneValue | components/lib/cJSON/cJSON.c:2833-2837 | A tree stands for one value, so the shortcut for the same pointer answers right |
| JsonCompare.CanonicalIsReordering | components/lib/cJSON/cJSON.c:2799-2922 | Equal up to the order of members means: the members of both objects can be paired by key, one to one, with values equal in the same sense, at every depth |
| JsonNodes.CompareMembers | components/lib/cJSON/cJSON.c:2885-2898 | The one-sided walk along the list answers whether every item has an equal value under its key on the other side |
| JsonNodes.CompareMember | components/lib/cJSON/cJSON.c:2887-2897 | An item is compared with the first of its key on the other side, or found to have none |
| JsonNodes.CompareItems | components/lib/cJSON/cJSON.c:2849-2873 | Lists compare item by item and must be equally long |
| JsonCompare.SameTable | components/lib/cJSON/cJSON.c:2882-2914 | Both one-sided walks succeed exactly when the tables are the same and neither object has members with equal keys and different values |
| JsonCompare.PairsTable | components/lib/cJSON/cJSON.c:2882-2914 | Objects whose members are paired by key have equal tables exactly when paired values are equal |
| JsonTree.GetArraySize | components/lib/cJSON/cJSON.c:1720-1740 | The walk along next counts the items of the list |
| JsonTree.GetArrayItem | components/lib/cJSON/cJSON.c:1743-1760 | The walk along next gives the item with the index, or NULL behind the end |
| JsonTree.GetObjectItem | components/lib/cJSON/cJSON.c:1772-1798 | The first item with the key, or NULL when there is none |
| JsonTree.AddItem | components/lib/cJSON/cJSON.c:1816-1871 | The item comes last, with all next and prev links of the list right |
| JsonTree.Detach | components/lib/cJSON/cJSON.c:2071-2099 | The list is the old one without the item, in order and with all links right, and the item is in no list |
| JsonTree.Insert | components/lib/cJSON/cJSON.c:2141-2168 | The list has the new item before the given index, or last when there is none, with all links right; a negative index changes nothing |
| JsonTree.Replace | components/lib/cJSON/cJSON.c:2170-2203 | The new item takes the place of the old one, with all links right, and the old one is in no list |
| JsonTree.DetachFromArray | components/lib/cJSON/cJSON.c:2101-2109 | Detaches the item with the index, or changes nothing and gives NULL |
| JsonTree.ReplaceInObject | components/lib/cJSON/cJSON.c:2215-2233 | Replaces the first item with the key; when there is none the list stays and the call still reports success |
| JsonTree.Duplicate | components/lib/cJSON/cJSON.c:2550-2627 | The copy is a tree of new nodes that stands for the same value, keys included; there is none only where an allocation failed; the original is untouched |
| JsonTree.DuplicateKids | components/lib/cJSON/cJSON.c:2586-2614 | The loop links copies of all children, in order and with all links right, below the new node |
| JsonTree.Link | components/lib/cJSON/cJSON.c:1378-1390 | The assignments of the parser that put a new item behind the last one keep a list of separate trees for the values read so far, all links right |
| JsonTree.LinkMember | components/lib/cJSON/cJSON.c:1536-1548 | The same for object items, which carry their keys |
| OtaWriterSpec.WriteImage | components/ota/package/package_writer.c:223-291 | For every block size, offset and length, in any order: flash with the staged bytes over it is the previous image with the chunk written at its offset |
| OtaWriterSpec.BeginImage | components/ota/package/package_writer.c:122-177 | The part of a chunk that ends inside a block joins the staged bytes or is staged behind what flash has of the block, and the image shows it |
| OtaWriterSpec.BlocksImage | components/ota/package/package_writer.c:179-221 | Whole blocks written out and a last part staged show the chunk in the image |
| OtaWriterSpec.FlushKeepsImage | components/ota/package/package_writer.c:238-252 | Flushing staged bytes that a write does not continue changes no image |
| OtaWriterSpec.EndExact | components/ota/package/package_writer.c:293-301 | Ending leaves the image in flash exactly when staged bytes are due, there are none, or flash has them already |
| OtaWriterRuns.RunExact | components/ota/package/package_writer.c:223-301 | For every flash, block size, payload and sequence of requests, in any order and overlapping: before the end the image is the payload where it was sent and old flash elsewhere, and the end leaves that image in flash exactly when staged bytes are due or no byte sent inside the stage differs from what flash held when it was staged without it |
| OtaWriterRuns.TracksStep | components/ota/package/package_writer.c:223-291 | What each request adds to the bytes sent, to the staged stretch and to its holes, which are known from block size and requests alone |
| OtaWriterRuns.EndSpares | components/ota/package/package_writer.c:293-301 | The condition at the end of any run, for any flash |
| OtaWriterRuns.SentIs | components/ota/package/package_writer.c:223-291 | The bytes sent are exactly those in the range of some request |
| OtaWriterRuns.RunDelivers | components/ota/package/package_writer.c:223-301 | Hence after any run without gaps the final flash is the payload as far as it was covered and untouched behind it, also when an old stage is written a second time |
| OtaWriterRuns.FollowsStep | components/ota/package/package_writer.c:223-291 | Every request of a run without gaps keeps the image a prefix of the payload and the staged bytes part of it |
| OtaWriterRuns.GapLosesBytes | components/ota/package/package_writer.c:89-118 | With a gap the end of a download can undo what was written: four bytes for which it does |
| OtaWriter.PackWriter.WriteStoredData | components/ota/package/package_writer.c:89-118 | Writes the staged bytes at their block's offset |
| OtaWriter.PackWriter.BeginNotAligned | components/ota/package/package_writer.c:122-177 | The object does what the specified step does, and consumes exactly the part of the chunk in the first block |
| OtaWriter.PackWriter.EntireBlocks | components/ota/package/package_writer.c:179-199 | Every whole block of the chunk is in flash, by one block-sized write each |
| OtaWriter.PackWriter.EndNotAlignedBlock | components/ota/package/package_writer.c:202-221 | The rest is staged at its own block's offset |
| OtaWriter.PackWriter.Write | components/ota/package/package_writer.c:223-291 | The object's flash, buffer and fields after a write are those specified, and the image has the chunk; every flash write starts on a block boundary and spans at most a block |
| OtaWriter.PackWriter.WriteEnd | components/ota/package/package_writer.c:293-301 | Flash ends as the image under exactly the condition of EndExact |
| OtaHeadSpec.PieceParses | components/ota/package/package_head.c:97-166 | However a valid head is cut, every piece takes the parser from one prefix to the next and uses exactly the bytes of the head it carries |
| OtaHeadSpec.FirstPart | components/ota/package/package_head.c:97-166 | The fixed fields decide as soon as they are complete, wherever they were cut |
| OtaHeadSpec.SecondPart | components/ota/package/package_head.c:293-365 | Behind the fixed fields a piece adds its bytes of the head; the walk runs when the last one arrives, and only then |
| OtaHeadSpec.LengthWhenWhole | components/ota/package/package_head.c:402-405 | While a head arrives in any pieces its length is reported as 0, and from its last byte on as it is |
| OtaHead.PackHead.ParseHeadLen | components/ota/package/package_head.c:97-166 | Buffer, lengths and result after the call are those specified |
| OtaHead.PackHead.HandleTlv | components/ota/package/package_head.c:180-221 | A signature is saved and its bytes become zero; a bin type selects the area or is refused; nothing else changes |
| OtaHead.PackHead.WalkTlvs | components/ota/package/package_head.c:224-290 | The loop ends and does what the specified walk does, the length left falling with every turn |
| OtaHead.PackHead.ParseTlvs | components/ota/package/package_head.c:224-290 | A good walk starts the digest with the head, a bad one does not |
| OtaHead.PackHead.Parse | components/ota/package/package_head.c:293-365 | State, result and used length are those specified, for every piece at every offset |
| OtaPackSpec.WalkEncoded | components/ota/package/package_head.c:224-290 | Over any sequence of encoded TLVs the walk ends, reads each once, blanks every signature where it stands, saves the last one and changes nothing else |
| OtaPackSpec.WalkStep | components/ota/package/package_head.c:239-286 | One turn reads one TLV and goes on exactly behind it |
| OtaPackSpec.PackedHeadParses | components/ota/package/package_head.c:293-365 | Every packed head within the device's limit is valid, and parsing it leaves the head with a blank signature, the signature saved and the area selected |
| OtaPackSpec.FieldsDecode | components/ota/script/package_software.py:354-384 | The device reads from a packed head the version, the head's own length and the package's length |
| OtaPackSpec.SignedReads | components/ota/script/package_software.py:367-376 | The signature that the packer adds is the one the device saves, and blanking gives the head with zeros that was hashed |
| OtaPackSpec.LastArea | components/ota/package/package_head.c:208-221 | The last TLV that names an area selects it, whatever comes before |
| OtaPackSpec.BadAreaRefused | components/ota/package/package_head.c:208-221 | A TLV that names an area other than 0 and 1 ends the walk, whatever comes before and behind it |
| OtaDeviceSpec.EndToEnd | components/ota/package/package.c:46-152 | For every package within the device's limits and every cut into pieces of 1 to 65535 bytes: all are accepted, the digest is fed exactly what the packer hashed, the signature is saved, the area is the one the TLVs name, flash ends as the payload with the rest untouched, and the final check answers for exactly those bytes |
| OtaDeviceSpec.DeliverAll | components/ota/package/package.c:96-152 | From any prefix on, every cut of the rest of a package into pieces of 1 to 65535 bytes is accepted piece by piece |
| OtaDeviceSpec.BadFieldsRefused | components/ota/package/package_head.c:97-166 | A package whose version is not 0, or whose head is shorter than 12 bytes, longer than 4096, or no shorter than the package, is refused, however it is cut |
| OtaDeviceSpec.LargePayloadRefused | components/ota/package/package.c:96-152 | A package whose payload is larger than the area is never taken whole, however it is cut |
| OtaDeviceSpec.OnlyItsLength | components/ota/package/package_head.c:373-400 | A download passes the final check for the length that its head gives and for no other |
| OtaDeviceSpec.DeviceStep | components/ota/package/package.c:96-152 | Each such piece takes head, digest and writer to the next prefix of the package |
| OtaDeviceSpec.RestArrives | components/ota/package/package.c:132-149 | The part of a piece behind the head takes writer and digest to the next prefix of the payload |
| OtaDeviceSpec.LongPiecesAreCut | components/ota/package/package.c:96-152 | Any piece of a package moves the device to the next prefix exactly when its length fits 16 bits; a longer one that begins behind the head is accepted all the same and cut |
| OtaDeviceSpec.PieceParsesAt | components/ota/package/package_head.c:293-365 | The parser takes from a piece exactly what belongs to the head, also when head and payload meet in it |
| OtaDeviceSpec.UpdateContinues | components/ota/package/package_checksum.c:175-232 | Payload bytes that continue the stream are fed as they come, the first time at any offset behind the head |
| OtaDeviceSpec.FedRight | components/ota/package/package_checksum.c:132-232 | A piece of payload at any offset leaves the checksum fed with what the packer hashed up to the end of the piece exactly when it continues the stream, or lies behind the end of flash, away from the head's length, and flash read back in whole blocks is the payload up to the end of the piece |
| OtaDeviceSpec.LastPieceAgain | components/ota/package/package_checksum.c:132-232 | A piece for which the second holds: the last one again, of a payload that fills its area in whole blocks |
| OtaDeviceSpec.FedFrom | components/ota/package/package_checksum.c:132-232 | What a piece at any offset feeds: itself behind the stream where that stands or at the head's length; elsewhere head, as much flash as the package offset says although that counts the head, and itself; where flash ends before, head and whole blocks of flash and not itself |
| OtaDeviceSpec.ResentPieceIsFedTwice | components/ota/package/package_checksum.c:193-199 | Sending the first piece of payload again after progress feeds its bytes a second time |
| OtaDevice.PackDevice.RestoreChecksum | components/ota/package/package_checksum.c:147-165 | The read loop feeds flash up to the offset, or fails where flash ends |
| OtaDevice.PackDevice.UpdateData | components/ota/package/package_checksum.c:175-232 | The running digest after a piece is the specified one |
| OtaDevice.PackDevice.WriteSoftware | components/ota/package/package.c:96-152 | Head, digest, writer and result after a piece are those specified, for every offset and piece, lengths being cast to 16 bits on the way |
| OtaDevice.PackDevice.WriteSoftwareEnd | components/ota/package/package.c:46-93 | Staged bytes are written out; a completed download succeeds exactly when the head's check does |
| OtaDevice.Download | components/ota/package/package.c:46-152 | A whole download of any package in any cut into pieces of 1 to 65535 bytes leaves the payload in flash and the area of its TLVs selected, and succeeds exactly when the signature is good for the bytes that the packer hashed |
| OtaPacker.SerializeByte | components/ota/script/package_software.py:52-70 | The shifting mask gives the low bytes of the value, most significant first |
| OtaPacker.ValueReads | components/ota/script/package_software.py:239-272 | An integer of n bytes is written as n bytes whose big-endian value is the integer modulo 256 to the n, and text is written as it is |
| OtaPacker.ValuesJoin | components/ota/script/package_software.py:239-272 | The values of a TLV stand one behind the other, in order |
| OtaBytes.FieldsAreBigEndian | components/ota/package/package_head.c:39-43 | The fields of a head are read most significant byte first |
| OtaPacker.FileWriter.Write | components/ota/script/package_software.py:79-91 | Writing overwrites what is at the position and extends the file behind its end |
| OtaPacker.FileWriter.WriteIntAt | components/ota/script/package_software.py:79-91 | Patching a number in changes only its own bytes |
| OtaPacker.WriteValue | components/ota/script/package_software.py:239-272 | A value's bytes are appended and counted; an integer with a missing or too large length writes nothing and counts 7; an unknown type or negative length is an error |
| OtaPacker.WriteTlv | components/ota/script/package_software.py:314-335 | The file has grown by the TLV as written: with the counted length when no value stopped, else with length 0 and the values in front of the bad one |
| OtaPacker.WriteTlvs | components/ota/script/package_software.py:297-336 | For every configuration the file has grown by the TLVs up to the one that halts; reports an error exactly when there is one |
| OtaPacker.WriteConfig | components/ota/script/package_software.py:354-384 | For every configuration the file is a head with all lengths patched in, the TLVs as written and zeros for the signature, whose place is returned |
| OtaPacker.HashHead | components/ota/script/package_software.py:398-407 | The head is read back in pieces and fed in full, and the position is behind it |
| OtaPacker.MakeSoftware | components/ota/script/package_software.py:409-445 | For every configuration what is hashed is the head with a zero signature and the payload, and the file is the same with the signature of exactly those bytes in its place; it is the package of the TLVs asked for exactly when the configuration is harmless |
| OtaPacker.WrittenExact | components/ota/script/package_software.py:297-336 | The TLVs as written are those asked for exactly when nothing is asked for behind a bad value or a missing attribute, the length field left open there stands for the bytes in front of it, and the 7s counted too much cancel out in 16 bits |
| OtaPacker.PackedExact | components/ota/script/package_software.py:354-384 | The whole file is the package of the TLVs asked for under exactly that condition |
| OtaPacker.GoodIsHarmless | components/ota/script/package_software.py:297-336 | Configurations without errors meet it |
| OtaPacker.UnknownTypeIsRejected | components/ota/script/package_software.py:329-331 | A value of unknown type leaves a head that the device rejects, whatever the signature |
| OtaPacker.MissingLengthIsMisread | components/ota/script/package_software.py:266-272 | An integer without a length leaves a TLV that claims seven bytes too many, and the device reads the signature's TLV as part of it |
| OtaPacker.SignatureFits | components/ota/script/package_software.py:391-396 | Writing the signature at its offset gives the head that would have been written with it |
| OtaUpgrade.PackAndInstall | components/ota/script/package_software.py:354-445 | What the host packs the device installs: for every harmless configuration, payload, cut into pieces of 1 to 65535 bytes and scheme whose check accepts what it signs, the download is accepted, flash holds the payload, and the device has selected the area that the configuration's last bin type names, or area 0 when it names none |
| OtaUpgrade.AreaOf | components/ota/script/package_software.py:239-272 | The area that a configuration asks for, by the last of its bin types, is the one the device reads from its TLVs, and area 0 when it asks for none |
| OtaFlags.FlagRoundTrip | components/ota/flag_operate/upgrade_flag.c:53-58 | A record read from its bytes is the record that was written |
| OtaFlags.SavedIsRestored | components/ota/flag_operate/upgrade_flag.c:53-80 | Initialisation restores exactly the record that was saved, and the other slot is untouched |
| OtaFlags.RunSurvivesReboot | components/ota/flag_operate/upgrade_flag.c:60-145 | After any sequence of setters a reboot restores exactly the record in memory, and the other slot is as it was |
| OtaFlags.OldSizeKept | components/ota/flag_operate/upgrade_flag.c:104-122 | The size of the old image changes only when a run reads the result of a successful upgrade |
| OtaFlags.FieldsLie | components/ota/flag_operate/upgrade_flag.c:40-49 | The fields lie in the record in the order of their declaration, four bytes each, the checksum last |
| OtaFlags.CoveredTellsApart | components/ota/flag_operate/upgrade_flag.c:53-58 | The checksum is taken over every other field |
| OtaFlags.BadRecordIsCleared | components/ota/flag_operate/upgrade_flag.c:60-80 | A record whose checksum is wrong is not believed: all fields but the verify length are cleared and the checksum renewed; one whose checksum is right is kept |
| OtaFlags.InfoShows | components/ota/flag_operate/upgrade_flag.c:82-89 | After any history the last upgrade asked for is what a reboot finds: type, size, and that there is one to do |
| OtaFlags.FailureShows | components/ota/flag_operate/upgrade_flag.c:112-145 | A failure is what a reboot finds until its result is read, and reading it moves no size |
| OtaFlags.SuccessMovesSize | components/ota/flag_operate/upgrade_flag.c:104-122 | Reading a success makes the size of the image the old one, once and for all, and leaves nothing to do |
| OtaFlags.VerifyShows | components/ota/flag_operate/upgrade_flag.c:124-130 | The last value to recover by is what a reboot finds, whatever follows |
| OtaFlags.FlagManager.Read | components/ota/flag_operate/flag_manager.c:57-80 | Gives the head of the asked slot out of a buffer of the whole page, for lengths that a slot can hold |
| OtaFlags.FlagManager.Write | components/ota/flag_operate/flag_manager.c:82-105 | The page is read, changed and written back through a buffer: the head of one slot is replaced, the rest of it and the whole other slot stay, and a failure changes nothing |
| OtaFlags.FlagManager.CopyIn | components/ota/flag_operate/flag_manager.c:93-102 | The copy into the buffer is an overwrite at the slot's place |
| OtaFlags.UpgradeFlag.constructor | components/ota/flag_operate/upgrade_flag.c:60-80 | The record is the stored one when its checksum holds and a reset one otherwise, and in both cases the page restores to it |
| OtaFlags.UpgradeFlag.SaveFlag | components/ota/flag_operate/upgrade_flag.c:53-58 | The page holds the record with its checksum renewed: initialisation restores exactly it, all fields but the checksum as they were, and the other slot stays |
| OtaFlags.UpgradeFlag.SetInfo | components/ota/flag_operate/upgrade_flag.c:82-89 | Type and image size as given, the state that of an upgrade to do, all other fields as they were; a reboot restores exactly this |
| OtaFlags.UpgradeFlag.SetResult | components/ota/flag_operate/upgrade_flag.c:104-110 | State and image size as given, all other fields as they were; a reboot restores exactly this |
| OtaFlags.UpgradeFlag.GetResult | components/ota/flag_operate/upgrade_flag.c:112-122 | Reports the state; then the state is idle and the type none, and the old size is the image size exactly after a success; all other fields stay, and a reboot restores exactly this |
| OtaFlags.UpgradeFlag.SetRecoverVerify | components/ota/flag_operate/upgrade_flag.c:124-130 | The two verification fields as given, all others as they were; a reboot restores exactly this |
| OtaFlags.UpgradeFlag.SetUpdateFail | components/ota/flag_operate/upgrade_flag.c:140-145 | The state is that of a failure, all other fields are as they were; a reboot restores exactly this |
| VfsProtocol.StepKeepsInv | components/fs/vfs/los_vfs.c:63-393 | Every step of every task (lock, unlock, read or write of one status or mount) keeps: locks are held exactly where the code says, owned slots stay INITING or CLOSING and have one owner, and what a task has read of a slot still holds, an unused entry found by the scan included |
| VfsProtocol.OtherSlot | components/fs/vfs/los_vfs.c:284-323 | No step of one task invalidates what another has found out about its slot |
| VfsProtocol.MovesWrites | components/fs/vfs/los_vfs.c:81-91 | A slot is written only by its owner, when taken unused under fs_mutex, or when closed READY under both mutexes |
| VfsProtocol.OwnersStayApart | components/fs/vfs/los_vfs.c:63-91 | No two tasks ever own the same slot |
| VfsProtocol.RunKeepsInv | components/fs/vfs/los_vfs.c:205-393 | The invariant holds in every state of every interleaving |
| VfsProtocol.AttachedIsSafe | components/fs/vfs/los_vfs.c:272-360 | In every interleaving, as long as a task is attached its slot is what it was, names the mount whose mutex the task holds, and no other task is attached to a file of that mount |
| VfsProtocol.AttachedExclude | components/fs/vfs/los_vfs.c:325-333 | Two attached tasks are attached to different slots of different mounts |
| VfsProtocol.ClosingExcludes | components/fs/vfs/los_vfs.c:306-311 | Once a slot is CLOSING only the closer is attached to it, and no task waits for its mount's mutex on its behalf |
| VfsProtocol.AttachedSlotStays | components/fs/vfs/los_vfs.c:272-345 | No step of another task touches the slot a task is attached to |
| VfsProtocol.DetachUnlocksOwn | components/fs/vfs/los_vfs.c:357-360 | The mutex found through f_mp at detaching is the one locked at attaching, and the task still holds it |
| VfsProtocol.MountIsThere | components/fs/vfs/los_vfs.c:323-360 | f_mp is never null where a task that has seen READY, or is attached, reads it |
| VfsProtocol.NoDeadlock | components/fs/vfs/los_vfs.c:323-343 | Whenever some task is in a call, some task in a call is not blocked and has a step to take: fs_mutex before m_mutex excludes deadlock |
| VfsProtocol.UnblockedSteps | components/fs/vfs/los_vfs.c:205-393 | A task that does not wait for a held lock can always take its next step |
| VfsProtocol.StepComesCloser | components/fs/vfs/los_vfs.c:63-393 | Every step brings its task closer to the end of its call, so calls end after at most 22 steps of their own, the scan of the table included |
| VfsRuns.RunAccounts | components/fs/vfs/los_vfs.c:63-393 | In every state of every interleaving each INITING or CLOSING entry has a task that works on it, so an entry that no call works on is free or READY |
| VfsRuns.OpenEnds | components/fs/vfs/los_vfs.c:182-268 | In every interleaving, from where a task has taken an entry until its open is over: the entry is READY with the mount if the driver opened the file, and has been freed by the task otherwise |
| VfsRuns.CloseEnds | components/fs/vfs/los_vfs.c:362-393 | A close that has attached ends with the entry free |
| VfsRuns.ScanReadsAll | components/fs/vfs/los_vfs.c:63-79 | A search that ends without an entry has found every one in use, each at its time; one that ends with an entry has found all before it in use |
| VfsRuns.OpenUseClose | components/fs/vfs/los_vfs.c:182-431 | From every initial state, for every task and mount, a run opens a file, attaches to the entry that this made READY, detaches, attaches to close it, and leaves the table as it was |
| VfsRuns.OpensFail | components/fs/vfs/los_vfs.c:205-268 | Runs in which an open fails, because there is no mount point or the driver does not open the file, leave the table as it was |
| VfsPaths.ComponentsAreNames | components/fs/vfs/los_vfs.c:113-125 | Components are non-empty and free of slashes |
| VfsPaths.TotalIsNonSlashes | components/fs/vfs/los_vfs.c:147 | The characters that matching counts are exactly those that are not slashes |
| VfsPaths.NameRead | components/fs/vfs/los_vfs.c:113-131 | A name behind any number of slashes, in front of a slash or the end, is the next component |
| VfsPaths.JoinedRead | components/fs/vfs/los_vfs.c:113-131 | Names joined by slashes are read back in order |
| VfsPaths.SkipTo | components/fs/vfs/los_vfs.c:118-119 | The loop over slashes stops at the first other character |
| VfsPaths.FindSlash | components/fs/vfs/los_vfs.c:121-131 | The component ends at the next slash or at the end of the string |
| VfsMount.MatchMount | components/fs/vfs/los_vfs.c:106-150 | A mount point matches exactly when its components begin those of the path; matches is their total length, and the pointer stands where the other components begin |
| VfsMount.MpFind | components/fs/vfs/los_vfs.c:93-180 | Gives the first mount point with the most components that begin those of the path, never one without components, and the rest of the path without leading slashes; NULL exactly when there is none |
| VfsMount.LongerIsMore | components/fs/vfs/los_vfs.c:153-156 | Among mount points that match the same path more characters means more components, so counting characters finds the longest prefix |
| VfsMount.OrderPlaysNoPart | components/fs/vfs/los_vfs.c:100-180 | With distinct component lists the answer does not depend on the order of the list |
| VfsMount.RestDetermined | components/fs/vfs/los_vfs.c:159-166 | The rest of the path is determined by the components in front of it |
| RamfsTree.PrefixNamed | components/fs/ramfs/los_ramfs.c:81-150 | Everything above a named element is a named directory with a good name |
| RamfsTree.SiblingsDiffer | components/fs/ramfs/los_ramfs.c:124-131 | Two entries of a directory never have the same name |
| RamfsTree.EntryNamed | components/fs/ramfs/los_ramfs.c:124-131 | The entries along sabling are exactly the elements named one component further |
| RamfsTree.InsertKeepsValid | components/fs/ramfs/los_ramfs.c:243-256 | Linking a new element first in its directory keeps the tree a tree: unique sibling names of 1 to 15 characters without slashes, chains and parents in agreement, every element named once |
| RamfsEdit.RemoveKeepsValid | components/fs/ramfs/los_ramfs.c:372-401 | Unlinking and freeing an element without entries keeps the tree a tree |
| RamfsEdit.RenameKeepsValid | components/fs/ramfs/los_ramfs.c:444-496 | Overwriting a name with an unused one keeps the tree a tree |
| RamfsEdit.RenamedLookup | components/fs/ramfs/los_ramfs.c:444-496 | After a rename everything below the old name is found below the new one, nothing is left below the old one, and every other lookup is as before |
| RamfsSpec.FindAgrees | components/fs/ramfs/los_ramfs.c:81-150 | A path is found in full, as the element it names, exactly when its components are named, whatever its slashes; a path that ends in a slash does not find a file |
| RamfsSpec.MissAgrees | components/fs/ramfs/los_ramfs.c:81-150 | Exactly one component is left over, below the directory returned, exactly when the rest of the path is named and that component is not |
| RamfsSpec.CreateHere | components/fs/ramfs/los_ramfs.c:243-256 | Creating what is left of the path names exactly the path's components and changes no other name or element |
| RamfsSpec.RenameHere | components/fs/ramfs/los_ramfs.c:456-494 | The directory test succeeds exactly when old and new path differ only in the last component, and the result is a tree |
| RamfsSpec.SameLinksValid | components/fs/ramfs/los_ramfs.c:263-337 | Changing counters and contents keeps the tree a tree |
| RamfsSpec.OverwriteAt | components/fs/ramfs/los_ramfs.c:332 | Every byte of an overwritten file is the written one inside the range and the old one outside: no holes |
| RamfsSpec.OverwriteFound | components/fs/ramfs/los_ramfs.c:332 | What is written is found where it was written, and all other bytes stay |
| RamfsSpec.Written | components/fs/ramfs/los_ramfs.c:307-332 | Copying into the grown block, or into what there is when it cannot grow, is the specified write |
| Ramfs.Ramfs.Search | components/fs/ramfs/los_ramfs.c:124-131 | The loop over entries finds the entry with exactly this name, or NULL when there is none |
| Ramfs.Ramfs.FileFind | components/fs/ramfs/los_ramfs.c:81-150 | Ends at the deepest named prefix of the path with the rest from the first unnamed component on, or fails where a file should be a directory or a name is 16 characters or longer |
| Ramfs.Ramfs.Open | components/fs/ramfs/los_ramfs.c:152-261 | Succeeds exactly on a file that exists (unless it must be new) or, with O_CREAT, on an unused name in an existing directory; counts the handle, appends at the end, adds exactly one name, and changes nothing on failure |
| Ramfs.Ramfs.Close | components/fs/ramfs/los_ramfs.c:263-270 | The counter of the element falls by one and nothing else changes |
| Ramfs.Ramfs.Read | components/fs/ramfs/los_ramfs.c:272-296 | Gives the bytes from the position on, as many as asked for and there, and moves behind them |
| Ramfs.Ramfs.Write | components/fs/ramfs/los_ramfs.c:298-337 | The bytes are written over the content and extend it, all of them while memory can be had; when it cannot grow exactly those that fit are, and with none fitting the call fails |
| Ramfs.Ramfs.Lseek | components/fs/ramfs/los_ramfs.c:339-370 | The position asked for, kept between 0 and the size; an unknown origin changes nothing |
| Ramfs.Ramfs.Del | components/fs/ramfs/los_ramfs.c:372-401 | The element leaves its directory's chain and memory; all others keep name, parent, counter and content; a root stays |
| Ramfs.Ramfs.Before | components/fs/ramfs/los_ramfs.c:392-397 | The loop finds the entry just before the one to remove |
| Ramfs.Ramfs.Unlink | components/fs/ramfs/los_ramfs.c:403-442 | Succeeds exactly on an element that is named, not open and without entries, and removes exactly its name |
| Ramfs.Ramfs.Rename | components/fs/ramfs/los_ramfs.c:444-496 | Succeeds exactly from a name to an unused one in the same directory, and moves everything below along |
| Ramfs.Ramfs.Mkdir | components/fs/ramfs/los_ramfs.c:572-627 | Succeeds exactly on an unused name in an existing directory, slashes behind it allowed, and adds exactly that directory |
| Ramfs.Ramfs.OpenDir | components/fs/ramfs/los_ramfs.c:498-523 | Succeeds exactly on a directory and counts the handle |
| Ramfs.Ramfs.ReadDir | components/fs/ramfs/los_ramfs.c:525-561 | Gives the entry with the number of the position, or nothing behind the last one |
| Ramfs.Ramfs.NewRoot | components/fs/ramfs/los_ramfs.c:655-675 | A new root is an empty tree of its own; all other trees stay |
| VfsRefs.OpenCounts | components/fs/ramfs/los_ramfs.c:196-256 | Opening keeps every counter equal to the number of handles, for a file that exists and for a new one |
| VfsRefs.CountDown | components/fs/ramfs/los_ramfs.c:263-270 | Closing a handle finds a counter above zero and keeps counters equal to the numbers of handles |
| VfsRefs.MountCountOne | components/fs/vfs/los_vfs.c:243-249 | Raising m_refs keeps it equal to the files and directories open on the mount point |
| VfsRefs.MountCountDown | components/fs/vfs/los_vfs.c:383-386 | Lowering m_refs finds it above zero and keeps it equal to them |
| VfsRefs.UnusedElement | components/fs/ramfs/los_ramfs.c:415-419 | A counter of zero means that no handle has the element open |
| VfsRefs.GoneMountRefs | components/fs/vfs/los_vfs.c:1115-1144 | A mount point with a count of zero can go without any handle on it |
| VfsRefs.FsAdded | components/fs/vfs/los_vfs.c:1083-1086 | Mounting keeps fs_refs equal to the number of mount points of the file system |
| VfsRefs.FsRemoved | components/fs/vfs/los_vfs.c:1138-1140 | Unmounting finds fs_refs above zero and keeps it equal to them |
| VfsRefs.MountAdded | components/fs/vfs/los_vfs.c:1055-1084 | A mount point whose components no other has keeps them distinct |
| VfsRefs.UnlinkKeeps | components/fs/ramfs/los_ramfs.c:403-442 | Whatever unlink removes no handle has open, and all counters and positions stay right |
| VfsRefs.WholePath | components/fs/vfs/los_vfs.c:1055-1060 | Nothing is left of a path exactly when its components are those of a mount point |
| VfsRefs.WriteAtEnd | components/fs/ramfs/los_ramfs.c:298-337 | From a position within the file a write is an overwrite, makes no hole and ends within the file |
| Vfs.Vfs.Find | components/fs/vfs/los_vfs.c:93-180 | Gives the mount point with the most components that begin the path, wherever it stands in the list |
| Vfs.Vfs.FileGet | components/fs/vfs/los_vfs.c:63-79 | The first unused entry of the table, or none |
| Vfs.Vfs.FsNameCheck | components/fs/vfs/los_vfs.c:899-933 | A name is good exactly when it has 1 to 15 characters, all of them letters, digits, underscores or hyphens |
| Vfs.Vfs.Register | components/fs/vfs/los_vfs.c:950-979 | Succeeds exactly for a well-formed name that is not registered |
| Vfs.Vfs.Unregister | components/fs/vfs/los_vfs.c:981-1032 | Removes a file system exactly when it is not mounted; for a mounted one the call succeeds and does nothing, so the file system of every mount point stays registered |
| Vfs.Vfs.Mount | components/fs/vfs/los_vfs.c:1034-1097 | Succeeds exactly for an absolute path whose components no mount point has, on a registered file system; adds the mount point first in the list and counts it |
| Vfs.Vfs.Unmount | components/fs/vfs/los_vfs.c:1099-1149 | Succeeds exactly for the path of a mount point on which nothing is open, and removes exactly that one |
| Vfs.Vfs.Open | components/fs/vfs/los_vfs.c:182-268 | Takes the first unused of the 8 entries, opens through the mount point the path leads to and counts the handle there and at the element; on failure nothing has changed and one of the reasons holds |
| Vfs.Vfs.CloseFile | components/fs/vfs/los_vfs.c:362-393 | Frees the entry and lowers both counters, which were above zero; a bad descriptor changes nothing |
| Vfs.Vfs.Read | components/fs/vfs/los_vfs.c:395-431 | Gives the bytes of the file's one content from this handle's position on and moves only this handle; fails exactly for no bytes, a bad descriptor or a file not open for reading |
| Vfs.Vfs.Write | components/fs/vfs/los_vfs.c:433-469 | Writes over the file's one content from this handle's position on, all bytes while memory can be had, and moves only this handle, so that all handles share one growing byte sequence; a file that cannot grow takes exactly the bytes that fit |
| Vfs.Vfs.Lseek | components/fs/vfs/los_vfs.c:471-495 | Moves only this handle, and never out of the file |
| Vfs.Vfs.WriteAndReadBack | components/fs/vfs/los_vfs.c:395-495 | Writing, going back over what was written and reading as much gives what was written, and leaves the bytes around it and all other files as they were |
| Vfs.Vfs.Unlink | components/fs/vfs/los_vfs.c:538-567 | Removes what the path names below its mount point, and never an element that a handle has open |
| Vfs.Vfs.Rename | components/fs/vfs/los_vfs.c:569-623 | Renames within one mount point and refuses across two |
| Vfs.Vfs.Mkdir | components/fs/vfs/los_vfs.c:845-897 | Makes the directory below the mount point the path leads to |
| Vfs.Vfs.OpenDirectory | components/fs/vfs/los_vfs.c:683-760 | Succeeds exactly when the path leads to a directory and memory is there, and counts the handle there and at the mount point |
| Vfs.Vfs.ReadDirectory | components/fs/vfs/los_vfs.c:762-800 | Gives the entries of the directory one by one, in list order |
| Vfs.Vfs.CloseDirectory | components/fs/vfs/los_vfs.c:802-843 | Lowers both counters, which were above zero, and forgets the handle |

## Left out

- Floating point: a number is its printed token of at most 25 characters over digits, signs, point and exponent; NaN and infinity, the integer value, the locale's decimal point and equality of different tokens for one double are not modelled.
- Characters are modelled as Dafny's `char`; the theorems hold for all of them, so also for bytes. Shifts and masks are written as division, remainder and addition.
- Raw and reference nodes, constant keys, case-insensitive lookup, NULL arguments, allocation hooks, the error pointer and the returned end of parsing.
- While parsing the source links a new item into its list before it fills it, and hangs the list below its parent at the end; the model fills the item first and links it below the parent at once, which is the same once parsing succeeds. Allocations that fail while parsing, and giving back the memory of deleted and replaced items, are not modelled.
- JsonMinify.MinifyInPlace: requires every string and block comment to be closed, because the loop reads past the terminator otherwise (JsonMinify.MinifyStops), where the model knows no memory.
- The digest is the sequence of bytes fed to it; SHA256, RSA and CRC are parameters.
- PACK_COMBINE_TO_WRITE_LAST_BLOCK set to PACK_YES, which is not the default.
- Flash accesses succeed exactly inside the area; the writer's state after a failed access is not described, nor the end of a download whose callbacks fail.
- A head whose buffer cannot be allocated; heads of exactly 12 bytes; a head sent again after its signature was blanked.
- A TLV field that would lie behind the head's buffer counts as malformed; the source reads there.
- The hardware patch call, the device's maximum size and update check (unset as pack_init_device leaves them), keys, and parsing of the configuration's XML; integer values are not negative.
- Flag callbacks that fail while setters run; the getters that only copy fields; the byte order in which a record lies in memory.
- Unmount racing with open, and mount, unmount, rename and unlink as steps of the interleaving model; `VfsProtocol` has open, close and operations on descriptors, and `Vfs` has every call as one step.
- VfsProtocol.StepKeepsInv: of a table entry only f_status and f_mp are modelled, because the other fields play no part in who may use it; what drivers do while a task is attached is one step.
- VfsProtocol.AttachedIsSafe: the descriptor is one of the table, because others are refused before any lock is taken.
- Vfs.Vfs.Open: requires a non-empty path, because the source reads the character before it otherwise.
- Vfs.Vfs.Mount: the root of the mounted tree is given; ramfs_mount's own length check, memory pool and cleanup are not modelled, and the path is a copy rather than the caller's string.
- stat, ioctl, sync, the error numbers of the virtual file system, the other file systems (kifs, devfs, fatfs, jffs2, spiffs) and mutexes that fail in calls other than open.
- Overflow of file positions and counters; sharing of one tree by two mount points is allowed but has no theorem of its own.
- Progress is stated per step; fairness of the scheduler is not modelled.
