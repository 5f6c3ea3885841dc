# A model of the phone server's JSON, tables and queues

The server keeps a table of phones in a JSON file, reads its settings from a text file, queues alerts and builds
messages from templates. This project models the code that carries the data and proves what that code is for.

* **JSON** (`cJSON.c`). `Json` are the values, `StringToken` and `Grammar` the concrete syntax of RFC 8259, sections 2
  to 7 (with UTF-8 as in RFC 3629, section 3, and surrogate pairs as in RFC 2781, section 2), in three styles: as the
  RFC has it, with what the parser accepts beyond that, and with comments between the tokens. `Parser` says what the
  parser computes on a text, `Printer` what text a value has, `Minifier` what the minifier leaves of a text. These
  theorems tie them together: every text in the lenient style is parsed to its meaning, and no other text is accepted
  but a string that the end of the text cuts off (`Language`); printed text conforms to the RFC and means the printed
  value; and minifying a text is dropping its blanks and comments. `Escapes`, `Numbers` and `Pretty` say the same from
  outside, without the functions of the model: a decoder for UTF-8 gives back the code point of every `\u` escape, a
  number is worth what its digits are by their places, and a scanner of the formatted text knows every blank in it.
* **JSON in memory** (`cJSON.c`). `Memory` is an allocator that counts the allocations that fail, any of which may, and
  frees only what is allocated; `Items` are the linked nodes, with the tree that they form (`Shape`), what it owns and
  the value it represents. `TextReader`, `StringDecoder`, `Utf8Writer` and `ItemParser` are the parser; `StringEncoder`,
  `PrintBuffer` and `BufferedPrinter` the printer into the growing buffer; `ExactPrinter` the printer into blocks of
  counted size; `MinifyInPlace` the minifier; `ItemLists`, `ItemLookup` and `ItemCopy` the operations on trees.
  `RoundTrip` puts printers and parser together.
* **The phone table** (`spRec.c`). `PhoneFile` is the text that is written without cJSON and read back through it,
  `PhoneTable` what each operation does to slots and file, with the invariant over all runs, `PhoneRecords` the table
  in memory, which reads its file with `ItemParser`.
* **Settings** (`jconfig.c`). `ConfigLists` are the two levels of lists as a two-level map, `ConfigFile` the file format
  with the round trip, `ConfigText` what a file means that somebody else has written, with comments and blanks, `Config`
  the operations.
* **Queues** (`queues.c`, `msgQueue.c`). `Fifo` is a bounded queue, `Queue` the ring and the table of queue controls,
  `AlertSteps` the alert queue as interleaved atomic steps, `AlertQueue` these steps in memory.
* **Messages** (`strsub.c`, `msgBuild.c`). `Substitution` is replacement of tokens one after the other and all at once,
  `Nesting` when the two agree, `NestingClash` why they do not agree otherwise, `MessageTable` the table of the program,
  `MessageBuilder` the passes over the buffers.

`CString`, `Bits`, `Sequences` and `Options` are shared helpers.

Conventions. A byte is a `char`. A pointer into a constant text is an index, or the suffix that starts there; reading at
the end of a text gives the terminator. A pointer into a table or ring is an index, and -1 is `NULL`. A number in JSON
is kept exactly, as a decimal mantissa and exponent. Ghost parameters (`sh`, `ks`, `v`, `vs`, `s`) name the tree, the
value or the text that is in memory; nothing is computed from them.

What lies outside the code is a parameter: the time, the settings that are read, the contents of files, what stands
behind a buffer that is not terminated (`junk`), and what an uninitialised line buffer holds (`garbage`). The slots of
a new phone table are assumed free, because `spRec.c` sets only the sentinel.

Where the code is more liberal than RFC 8259, the model follows the code: any byte from 1 to 32 counts as blank,
control bytes are accepted in strings, an unknown escape stands for its own byte, digits may follow a leading zero,
none need follow a minus, an exponent may lack its digits, and a string may lack its closing quote at the end of the
text. A `\u` escape that is zero, has no four hex digits or is a low surrogate stands for nothing, and so does a high
surrogate without its low half, together with a `\u` escape right behind it. For the minifier `/*/` is a whole comment.
The comment above `dequeue_data` says that it returns true if data was enqueued; it returns whether there was something
to dequeue. `jconfig_open` processes the last line of a file twice, and reads the uninitialised buffer if the file is
empty.

## Model

| member | source | states |
|---|---|---|
| StringToken.LexEmit | cJSON.c:192-249 | reading a string token inverts writing it: the same units come back and the scan stops right behind the closing quote, whatever follows |
| StringToken.EmitLex | cJSON.c:192-249 | whatever token is read, closed or cut off by the end of the text, writing its units gives back exactly the bytes that were consumed |
| StringToken.LexCut | cJSON.c:192-249 | a token that the end of the text cuts off is read to that end |
| StringToken.MeaningOfEscaped | cJSON.c:252-307 | the escaped form of every NUL-free byte string conforms to the RFC and means that string, control bytes by way of four-digit hex escapes included |
| Escapes.EscapeDecodes | cJSON.c:178-237 | for every code point from 1 to 0x10FFFF that is no surrogate, one `\u` escape or a pair that spells it, in digits of either case, means bytes that a decoder of RFC 3629 reads as that code point, whatever comes behind |
| Escapes.EscapeParsed | cJSON.c:192-249 | the parser reads that token as a string with these bytes and stops right behind it |
| Escapes.DroppedEscape | cJSON.c:178-218 | an escape that spells zero or a low surrogate, or has a byte that is no hex digit, stands for nothing |
| Escapes.LoneHigh | cJSON.c:178-226 | a high surrogate without its low half stands for nothing, together with a `\u` escape right behind it |
| Escapes.OtherUnits | cJSON.c:206-240 | the eight two-byte escapes of RFC 8259 stand for their bytes, an unknown one for its own, a plain byte for itself |
| Escapes.PrintedByte | cJSON.c:284-305 | each byte is written with its letter, as `\u00` and two lower-case digits, or as it is |
| Grammar.StripKeepsValue | cJSON.c:735-750 | dropping the blanks and comments around structural characters keeps a text well formed, in every style that allows its tokens, and its value; doing it again changes nothing |
| CString.NumeralDecimal | cJSON.c:147-175 | the digits written for a number denote it, and only zero starts with the digit 0 |
| CString.SignedLength | cJSON.c:147-175 | a 32-bit number needs at most 11 bytes, so that the 21 bytes reserved are enough |
| Numbers.NumeralWorth | cJSON.c:147-175 | the digits written add up to the number, each times ten to its place, behind a minus for a negative one |
| Numbers.NumberRead | cJSON.c:96-115 | a number that is read is worth its digits as one number, times ten to the written exponent less the count of fraction digits |
| CString.SkipDrops | cJSON.c:320 | what is left is a suffix of the text, only bytes from 1 to 32 have been dropped, and the next byte is none of these |
| Parser.ParseValue | cJSON.c:357-369 | every successful parse strictly advances |
| Parser.WholeTextIff | cJSON.c:323-337 | if nothing may follow, a text is accepted exactly if its value is followed by bytes from 1 to 32 only up to the end or a terminator |
| Parser.ReadFigure | cJSON.c:96-115 | the decimal that every accepted number spells, with fraction and exponent, is read exactly, and reading stops where the number ends; its conversion to `double` and `int` is left out |
| Parser.ParseEmitElements | cJSON.c:406-431 | the elements of an array are read back in order up to its closing bracket, whatever blanks surround them |
| Parser.ParseEmitEntries | cJSON.c:514-547 | the members of an object are read back in order, keys decoded, up to its closing brace |
| Parser.ParseEmit | cJSON.c:357-547 | every value in the lenient style is parsed to its meaning, before any following text (that cannot extend it if it is a number), and the parser stops exactly at its end |
| Language.SpelledNumber | cJSON.c:96-115 | every number that is read is spelled as the lenient style says, its parts add up to the value, and what follows could not extend it |
| Language.SpelledElements | cJSON.c:406-431 | whatever elements are accepted are spelled in the lenient style up to the closing bracket, with the values in order |
| Language.SpelledEntries | cJSON.c:514-547 | the same for members, with keys decoded |
| Language.SpelledValue | cJSON.c:357-547 | every accepted text is a spelling of its value in the lenient style, unless it is a string that is cut off |
| Language.Accepts | cJSON.c:192-547 | the parser accepts a text, with a value and a rest, exactly if it spells that value before that rest, or is a string that the end of the text cuts off |
| Printer.LayoutMeans | cJSON.c:372-658 | printed text has a layout that conforms to RFC 8259 and means the printed value, in both formats and at any depth |
| Printer.LayoutEmits | cJSON.c:372-658 | that layout spells exactly the printed text |
| Printer.StripLayout | cJSON.c:342-343 | the formatted layout without blanks is the unformatted one |
| Printer.PrintNoNul | cJSON.c:372-658 | printed text holds no terminator, so that `strlen` finds its end |
| Printer.PrintThenParse | cJSON.c:357-658 | parsing inverts printing for every value, both formats, any depth and any following text that cannot extend a number |
| Pretty.ValueLaid | cJSON.c:372-658 | the scanner finds in the formatted text of every value, at any depth and whatever follows it, exactly these blanks outside strings: a tab behind a colon, a space behind a comma in brackets, a new line with one tab for each open bracket and brace before a member, one less before a closing brace, two less in empty braces |
| Pretty.DocumentLaid | cJSON.c:342 | a formatted document passes the scanner from its first byte to its last |
| Minifier.MinifyGap | cJSON.c:742-745 | blanks and complete comments of both kinds are dropped, whatever follows |
| Minifier.MinifyByte | cJSON.c:740-748 | outside strings and comments exactly the four blanks are dropped and every other byte is kept |
| Minifier.MinifyEnd | cJSON.c:743 | a comment that runs to the end of the text is dropped, and so is what stands behind a terminator |
| Minifier.MinifyEmit | cJSON.c:735-750 | minifying a value drops exactly the blanks and comments between its tokens and leaves what follows to the rest of the pass |
| Minifier.MinifyPrint | cJSON.c:735-750 | minifying the formatted print of any value gives byte for byte its unformatted print |
| Minifier.MinifyKeepsMeaning | cJSON.c:735-750 | on every JSON text, with comments or without, the minifier stays inside the text, what it leaves is parsed to the value of the text with nothing behind it, and it has no effect on its own result |
| Minifier.MinifyKeepsParse | cJSON.c:735-750 | a text that conforms to RFC 8259 is parsed to the same value before and after |
| MinifyInPlace.Minify | cJSON.c:735-750 | the rewriting in place leaves the minified text, without blanks and comments, and a terminator, and touches nothing behind it; the write position never passes the read position |
| Utf8Writer.WriteUtf8 | cJSON.c:229-237 | the shifts and masks write the UTF-8 form of every code point right behind what stands there |
| StringDecoder.ScanToken | cJSON.c:197-203 | the counting scan of a token stops where decoding stops, at its quote or at the end of the text, and the decoded bytes never exceed the count |
| StringDecoder.MeaningFits | cJSON.c:197-199 | no unit decodes to more bytes than were counted for it, and no decoded byte is NUL |
| StringDecoder.PairBits | cJSON.c:226 | the bit operations on a surrogate pair give its code point |
| StringDecoder.ReadCode | cJSON.c:216-227 | one `\u` escape or surrogate pair is decoded to its code point or dropped, as the meaning of the token says, which `Escapes` fixes for digits in either case |
| StringDecoder.ParseString | cJSON.c:192-249 | the result is a new terminated block with the bytes that the token means, and reading stops behind the closing quote or at the end of the text; without an opening quote or memory there is no block and nothing is left allocated |
| StringEncoder.FindEscape | cJSON.c:256 | the flag tells whether some byte needs an escape, and the length is that of the string |
| StringEncoder.CountEscaped | cJSON.c:278 | the counted size is exactly that of the quoted string |
| StringEncoder.WriteEscaped | cJSON.c:284-305 | exactly the quoted string and its terminator are written, right behind what stands there |
| StringEncoder.PlainText | cJSON.c:256-268 | a string without bytes to escape is its own escaped form, so that it can be copied |
| PrintBuffer.Pow2GtLeast | cJSON.c:117 | for 1 to 2^30 the bit trick gives a power of two, and the least one that is not below its argument |
| PrintBuffer.Buffer.constructor | cJSON.c:345-352 | a buffer of the size asked for, or none if allocation fails |
| PrintBuffer.Buffer.Ensure | cJSON.c:121-136 | afterwards there is room; a buffer with room stays, any other is replaced by one of the least power of two that is enough, with all bytes kept and the old block freed; all growth so far has copied at most the initial and the present size; on failure the buffer has been freed |
| PrintBuffer.Buffer.Update | cJSON.c:138-144 | the next terminator from the offset on |
| Items.Delete | cJSON.c:81-93 | every block that a chain of trees owns is freed, each exactly once, and nothing else is touched, in particular nothing that a reference shows |
| TextReader.SkipAt | cJSON.c:320 | the position where the blanks end |
| TextReader.ParseNumber | cJSON.c:96-115 | the loops over sign, digits, fraction and exponent read the decimal that the parser's specification says, with mantissa and scale kept exactly; its conversion to `double` and `int` is left out |
| ItemParser.ParseValue | cJSON.c:357-369 | the nodes built represent the value parsed, and only members of objects have names; it fails exactly if the text does not parse or an allocation has failed; either way the node owns exactly what has been allocated |
| ItemParser.ParseArray | cJSON.c:406-431 | the same for the loop over elements |
| ItemParser.ParseObject | cJSON.c:514-547 | the same for the loop over members |
| ItemParser.ParseWithOpts | cJSON.c:323-337 | fails exactly if the text does not parse or an allocation has failed, and has then freed all it allocated; a success hands over exactly a tree that represents the value, and the end of the text parsed |
| ItemLookup.EqualFolded | cJSON.c:39-44 | the comparison tells whether the strings are equal up to the case of letters |
| ItemLookup.FoldedNames | cJSON.c:39-44 | two names are the same up to case exactly if they are equally long and at each place have the same byte, or letters at the same place of the alphabet |
| ItemLookup.GetObjectItem | cJSON.c:663 | the first child, of whatever kind of node, whose name matches up to case, or nothing if there is none; a child without a name matches nothing |
| ItemLookup.FoundMember | cJSON.c:663 | in a tree that represents a value this is the first member whose key matches, and nothing in an array |
| ItemLookup.GetArraySize | cJSON.c:661 | the number of children |
| ItemLookup.GetArrayItem | cJSON.c:662 | the child at that position; a negative one means the first |
| ItemLists.SuffixObject | cJSON.c:666 | linking behind the last child keeps the trees of both |
| ItemLists.AddItemToArray | cJSON.c:671 | appends to the children and their values, links consistent |
| ItemLists.InsertItemInArray | cJSON.c:684-685 | inserts at the index, or appends behind the end, links consistent |
| ItemLists.DetachItemFromArray | cJSON.c:677-678 | removes the child at the index and hands it over unlinked with its value; beyond the end nothing changes |
| ItemLists.DeleteItemFromArray | cJSON.c:679 | removes the child at the index and frees exactly what it owns |
| ItemLists.ReplaceItemInArray | cJSON.c:686-688 | puts the new child in place of the old one and frees exactly what the old one owns; beyond the end nothing changes |
| ItemCopy.StrDup | cJSON.c:49-58 | a new block that holds whatever text the old one holds |
| ItemCopy.CreateReference | cJSON.c:668 | a new node that shows the value of another one and owns nothing but itself |
| ItemCopy.TreeShows | cJSON.c:708-733 | what is found from the root of a tree on is in the tree and shows the value that it represents |
| ItemCopy.Duplicate | cJSON.c:708-733 | the copy of what a node shows, by way of references or not, represents the same value, or the same kind of container without children if not `recurse`, holds the same name, is made only of new blocks that it owns and leaves the source alone; it fails exactly if an allocation has failed, and then nothing is left allocated |
| BufferedPrinter.PrintString | cJSON.c:252-307 | the quoted string and its terminator stand behind the bytes printed before |
| BufferedPrinter.PrintArray | cJSON.c:434-468 | the text of the array stands behind the bytes printed before, or the buffer is lost, which happens exactly if an allocation has failed |
| BufferedPrinter.PrintObject | cJSON.c:550-607 | the same for objects |
| BufferedPrinter.PrintValue | cJSON.c:372-403 | the same for every value, both formats, any depth and any state of the buffer |
| BufferedPrinter.PrintBuffered | cJSON.c:345-353 | for every initial size the buffer holds the text from its start on and is all that is left allocated; all growth has copied at most the initial and the final size; it fails exactly if an allocation has failed |
| ExactPrinter.PrintString | cJSON.c:252-307 | a new block of exactly the size of the quoted string and its terminator |
| ExactPrinter.PrintArray | cJSON.c:434-511 | a new block with the text of the array; the table of pieces and all pieces have been freed, on failure too |
| ExactPrinter.PrintObject | cJSON.c:550-658 | the same for objects |
| ExactPrinter.PrintValue | cJSON.c:372-403 | a new block with the text of the value is all that is left allocated; it fails exactly if an allocation has failed, and then nothing is left |
| RoundTrip.PrintBothWays | cJSON.c:342-353 | the two printers agree byte for byte, terminator included, whatever the initial size of the buffer, and nothing but the two texts is left allocated |
| RoundTrip.Words | cJSON.c:357-384 | the bytes that the three words and empty containers are written as, and that they are read as these values |
| RoundTrip.ParsePrinted | cJSON.c:323-343 | a printed document is parsed to its value also when nothing may follow it |
| RoundTrip.PrintAndParse | cJSON.c:323-343 | printing a tree and parsing the text gives a new tree with the same value and leaves nothing else allocated |
| RoundTrip.ParseAndDelete | cJSON.c:81-93 | deleting what a parse returns leaves allocated what was allocated before, whether or not the parse succeeded |
| PhoneFile.PhoneEmits | spRec.c:289-294 | the lines written for a record spell a JSON object |
| PhoneFile.FileEmits | spRec.c:285-305 | the file is a JSON text, with whatever follows it in memory |
| PhoneFile.FileBytes | spRec.c:275-307 | the bytes of the file without records, with one, and with a comma between two |
| PhoneFile.FieldBytes | spRec.c:150-170 | a string of up to 20 bytes is stored as it is, and of a longer one its first 20 bytes |
| PhoneFile.FileParses | spRec.c:315-362 | the file is parsed to the list of its records and the parser stops at the final brace, whatever follows it in memory |
| PhoneTable.ReadBack | spRec.c:379-402 | each record is read back as it was; the key `mac` is found under the name `MAC` |
| PhoneTable.FieldsRead | spRec.c:379-413 | from an object with any members a record is read from the first ones whose names match, strings cut to 20 bytes; a field without a member stays as it was |
| PhoneTable.RegisterFails | spRec.c:129-167 | registering fails exactly if every slot holds a record that matches in neither address nor MAC, and then changes neither table nor file |
| PhoneTable.RegisterSlots | spRec.c:129-186 | a successful registration leaves the record in one slot, keeping slot and line of a phone that was there, frees every other slot that matches, leaves all others as they were, and writes the file |
| PhoneTable.RegisterPhones | spRec.c:129-186 | which records are live after a successful registration, in terms of those before |
| PhoneTable.RemovePhones | spRec.c:196-205 | removing an address removes its record and no other, in order; without one nothing changes |
| PhoneTable.ExpirePhones | spRec.c:89-115 | expiring keeps exactly the records seen at most `minutes` times 60 seconds ago, in order; without any others nothing changes |
| PhoneTable.ExpireKeeps | spRec.c:89-115 | a record stays live exactly if it was and its last sighting is at most `minutes` times 60 seconds ago |
| PhoneTable.RegisteredExpires | spRec.c:89-186 | a phone just registered stays registered through any series of expiries exactly if none of them is later than `minutes` times 60 seconds after, and is gone after one a second later |
| PhoneTable.RestartReads | spRec.c:315-390 | a restart fills the first slots with the records of the file in order, as many as there is room for, whatever follows the file in memory |
| PhoneTable.RestartCompacts | spRec.c:65-79 | a restart that has room only compacts: the same live records in the same order, and the same file |
| PhoneTable.RestartIff | spRec.c:65-390 | into a table of any size, a restart keeps all live records exactly if it has room for them; otherwise exactly the first ones survive |
| PhoneTable.NextSound | spRec.c:65-390 | each step, a restart with any number of slots included, keeps the invariant: unique addresses and MACs, a file that the program has written, and its first records live |
| PhoneTable.NextGood | spRec.c:65-390 | a step keeps the file in step with the table exactly if it is no restart without room for the live records |
| PhoneTable.RunSafe | spRec.c:65-390 | in every state of every run of registering, removing, expiring and restarting with any number of slots, live records differ in address and MAC and are the first ones of the file that fit the table, and reading the file into a table of any size restores its first records in order |
| PhoneTable.RunInStep | spRec.c:65-390 | as long as every restart has had room, the records of the file are exactly the live ones, in slot order |
| PhoneTable.SoundGood | spRec.c:65-390 | after any run, table and file are in step exactly if the table has room for all records of the file |
| PhoneRecords.Records.constructor | spRec.c:65-79 | the table after start-up is that of a restart, unless the file does not parse or an allocation has failed |
| PhoneRecords.Records.GetNextRecord | spRec.c:238-268 | the next live slot; those skipped are not live |
| PhoneRecords.Records.FindIP | spRec.c:215-227 | the first live slot with the address |
| PhoneRecords.Records.AddRecord | spRec.c:129-186 | table, file and return value are those of registering |
| PhoneRecords.Records.RemoveIP | spRec.c:196-205 | table and file are those of removing |
| PhoneRecords.Records.CheckStale | spRec.c:89-115 | exactly the live slots seen more than `max_last_seen` times 60 seconds ago are freed, every other slot stays, and table and file are those of expiring |
| PhoneRecords.Records.EncodePhones | spRec.c:275-307 | the text written piece by piece is the file of the live records in slot order, commas between them only |
| PhoneRecords.Records.ParsePhones | spRec.c:356-390 | it crashes exactly if the text does not parse or an allocation has failed; otherwise the slots filled from the tree are those that the parsed value says, and the tree is freed exactly if the list is found |
| PhoneRecords.GetStr | spRec.c:392-402 | the matching member, cut to the width of the field, or the field as it was |
| PhoneRecords.GetInt | spRec.c:404-413 | the matching member, or the field as it was |
| PhoneRecords.OwnFileReadable | spRec.c:275-390 | every file that the program writes parses and meets what reading takes for granted |
| ConfigLists.StripStripped | jconfig.c:564-587 | a stripped string has no blank at either end, and stripping again changes nothing |
| ConfigText.StripAround | jconfig.c:564-587 | stripping removes exactly the spaces and tabs at both ends |
| ConfigLists.WriteView | jconfig.c:523-540 | a write sets one entry of the map, creating group and variable if need be, and leaves all others alone |
| ConfigLists.AddVarView | jconfig.c:413-438 | adding a variable adds an empty entry unless there is one |
| ConfigLists.AddGroupView | jconfig.c:269-287 | adding a group adds an empty one unless there is one |
| ConfigLists.RemoveVarView | jconfig.c:441-485 | removing a variable removes exactly its key |
| ConfigLists.RemoveGroupView | jconfig.c:290-345 | removing a group removes exactly its key |
| ConfigLists.RunRefines | jconfig.c:243-540 | over every run of operations the lists behave as the map, and names stay stripped and unique at both levels |
| ConfigLists.WrittenReversed | jconfig.c:413-438 | variables of different names written to a new group stand in front of each other there, the last one first, and the group stands in front of the others |
| ConfigLists.GroupsReversed | jconfig.c:269-287 | groups of different names stand in the opposite order in which they were added |
| ConfigFile.OpenValid | jconfig.c:43-140 | whatever the file holds, opening it gives stripped and unique names |
| ConfigFile.ReadLines | jconfig.c:68-133 | lines that fit the buffer are processed one by one, and the last one once more at the end of the file |
| ConfigFile.ReadLineTwice | jconfig.c:68-133 | processing a line twice gives the same map as processing it once |
| ConfigText.LineRead | jconfig.c:68-133 | a line is read as what stands on it before a `#` or a NUL, whatever follows, and before its end, a newline behind any number of carriage returns |
| ConfigText.FileMeans | jconfig.c:43-140 | opening a file of lines that fit the buffer gives the settings that they spell, each under the heading before it, whatever blanks and comments stand around names, values and headings; comments alone, and lines that are neither setting nor heading, do nothing |
| ConfigText.UnendedMeans | jconfig.c:43-140 | the same if the last line has no end |
| ConfigText.LongLineBroken | jconfig.c:68-71 | a line that is longer is read as if it ended after 254 bytes, and the rest of it as a line of its own |
| ConfigText.WrittenText | jconfig.c:143-185 | the text saved for any lists: the variables without a group, one `name = value` to a line, and then each group in order behind an empty line and its heading |
| ConfigFile.SaveThenOpen | jconfig.c:43-185 | opening what was saved gives the map back, apart from a global group without variables, provided there is a line to save and the lines fit |
| ConfigFile.RestoredIff | jconfig.c:43-185 | exactly when opening what was saved gives the map back: there was a line to save, or what is in the uninitialised line buffer neither starts a group nor assigns a variable |
| ConfigFile.EmptyFileReadsGarbage | jconfig.c:68-73 | a buffer for which it fails: what was in it is read as a setting |
| Config.StripSpaces | jconfig.c:564-587 | the loops compute the stripped string |
| Config.JConfig.Open | jconfig.c:43-140 | the lists read by the loop over the line buffer are those of the file format |
| Config.JConfig.Save | jconfig.c:143-185 | the text written is that of the global variables and then of all other groups |
| Config.JConfig.ReadString | jconfig.c:501-509 | the entry of the map under the stripped names, or the default |
| Config.JConfig.HasGroup | jconfig.c:261-266 | whether the map has the stripped name |
| Config.JConfig.HasVar | jconfig.c:405-410 | whether the map has the stripped names |
| Config.JConfig.AddGroup | jconfig.c:269-287 | the new lists are those of adding a group |
| Config.JConfig.AddVar | jconfig.c:413-438 | the new lists are those of adding a variable |
| Config.JConfig.WriteString | jconfig.c:523-540 | the new lists are those of a write of the stripped value |
| Config.JConfig.RemoveVar | jconfig.c:441-485 | the new lists are those of removing a variable |
| Config.JConfig.RemoveGroup | jconfig.c:290-345 | removing all variables by name terminates, and the group is gone and no other |
| Config.JConfig.Close | jconfig.c:188-212 | removing the first group by name until there is none terminates with nothing left |
| Fifo.RunKeepsOrder | queues.c:147-306 | over every run of enqueue, dequeue and clear, what came in is what went out or was cleared, followed by what is queued, in order |
| Fifo.RunSteps | queues.c:147-306 | in every state of every run of a new queue an element that comes in is appended exactly if fewer than the capacity are queued, and changes nothing otherwise; the first one goes out |
| Fifo.FilledUp | queues.c:205-249 | up to its capacity a new queue holds whatever is put in, in order |
| Fifo.NewPeak | queues.c:236-241 | over every run since creation the peak is exactly the largest depth, and never above the capacity |
| Queue.QueueCtrl.Setup | queues.c:123-133 | a new queue is empty |
| Queue.QueueCtrl.Enqueue | queues.c:205-249 | the element is appended, and true returned, exactly if fewer elements than the ring has places were queued; otherwise nothing changes |
| Queue.QueueCtrl.Dequeue | queues.c:267-306 | the ring hands out its first element as the bounded queue does |
| Queue.QueueCtrl.Peek | queues.c:322-344 | the first element, which stays |
| Queue.QueueCtrl.ClearQueue | queues.c:147-161 | nothing is queued, and the peak stays |
| Queue.QueueCtrl.WalkQueue | queues.c:389-432 | from the place of one queued element to that of the next, and to none behind the last, even if the ring is full and both ends coincide |
| Queue.QueueCtrl.WalkAll | queues.c:389-432 | walking from `NULL` to `NULL` visits each queued element exactly once, in order |
| Queue.QueueCtrl.Dump | queues.c:447-485 | the queued elements in order, and nothing behind them is touched |
| Queue.QueueTable.GetNewQueueCtrl | queues.c:546-572 | the first free control is taken and no other changes; there is none exactly if all are in use |
| Queue.QueueTable.CreateQueue | queues.c:83-135 | a new empty queue with storage of its own, or none without memory; the others keep what they hold |
| Queue.QueueTable.EnqueueAt | queues.c:205-249 | the same for one queue of the table; the other live queues keep their contents and peaks |
| Queue.QueueTable.DequeueAt | queues.c:267-306 | the other live queues keep their contents and peaks |
| Queue.QueueTable.ClearAt | queues.c:147-161 | the other live queues keep their contents and peaks |
| Queue.QueueTable.DestroyQueue | queues.c:171-187 | the queue is gone and the others keep what they hold |
| AlertSteps.RunConserves | msgQueue.c:72-137 | in every interleaving the accepted alerts are those sent followed by those queued, at most ten |
| AlertSteps.StartConserved | msgQueue.c:45-56 | so it is from the initialisation on |
| AlertSteps.RunAccepts | msgQueue.c:72-100 | in every reachable state an alert is accepted, and queued last, exactly if fewer than ten are queued |
| AlertSteps.AcceptedStays | msgQueue.c:72-137 | whatever steps follow, an accepted alert stands at its place among those sent and those queued |
| AlertSteps.WaitLength | msgQueue.c:118-132 | a wait that starts with the timer at d and is left alone goes on for exactly max(1, d) decrements |
| AlertSteps.LastWriteCounts | msgQueue.c:58-132 | in every interleaving a wait ends exactly max(1, d) decrements after the last write of d to the timer in it |
| AlertSteps.IdleDelaysForgotten | msgQueue.c:103-132 | delays set while no wait is on leave no trace in the next wait |
| AlertQueue.MsgQueue.constructor | msgQueue.c:45-56 | the initial state, delays in tenths of a second |
| AlertQueue.MsgQueue.Add | msgQueue.c:72-100 | one step of a producer with the name as it is stored, for names of every length; it returns 0 exactly if fewer than ten alerts were queued, and an alert with a name under 20 bytes is queued with exactly these bytes |
| AlertQueue.StoredName | msgQueue.c:81-87 | a name under 20 bytes is stored as it is, of a longer one its first 20 bytes, and behind one of exactly 20 what was in memory is read on |
| AlertQueue.NameKept | msgQueue.c:72-137 | in every later state an accepted alert with a name under 20 bytes is found with exactly its bytes, queued or sent |
| AlertQueue.StoredIff | msgQueue.c:81-87 | exactly when the stored name has no other bytes than the given one: it does not have exactly 20 bytes, or a terminator happens to stand behind them |
| AlertQueue.MsgQueue.SetDelay | msgQueue.c:64-69 | one step of a delay setter |
| AlertQueue.MsgQueue.SetAccept | msgQueue.c:58-61 | the same with the configured delay |
| AlertQueue.MsgQueue.Poll | msgQueue.c:110-112 | the consumer takes and pushes the first alert if there is one |
| AlertQueue.MsgQueue.Arm | msgQueue.c:114-116 | the consumer sets the timer |
| AlertQueue.MsgQueue.Tick | msgQueue.c:120-131 | one round of the wait |
| Nesting.FoldIsSubst | msgBuild.c:126-156 | with bracketed tokens, values without brackets and a template in which no bracket encloses complete groups, replacing one token after the other is replacing all at once |
| Nesting.OrderFree | msgBuild.c:38-55 | the order of the table then makes no difference |
| Nesting.NestedReplaced | msgBuild.c:126-156 | a pass makes no template nested that was not |
| NestingClash.Clash | msgBuild.c:126-156 | for every nested template there are two orders of one table with different results |
| NestingClash.OrderFreeIff | msgBuild.c:126-156 | exactly when no table's order makes a difference to a template, and when the passes replace all tokens at once for every table: no bracket of it encloses, up to its own closing bracket, plain bytes and complete groups with at least one group |
| MessageTable.FixedTableGood | msgBuild.c:44-55 | the table of the program meets the conditions on tables whenever the strings it refers to hold no brackets |
| MessageTable.MessageIsSubst | msgBuild.c:126-156 | for a template that is not nested the message is the simultaneous substitution, in whatever order the table lists the tokens |
| MessageTable.EachToken | msgBuild.c:44-55 | each of the eight tokens, between plain text, is replaced by its own value, and by nothing if that is missing |
| MessageTable.SameMessageIff | msgBuild.c:126-156 | exactly for these templates no reordering of any table changes the message |
| MessageTable.NestedTemplate | msgBuild.c:44-55 | a nested template with the table of the program: the department completes the token of the alarm, which is then replaced |
| MessageBuilder.ReplacedAtFind | strsub.c:82-89 | replacement is leftmost: the text up to the first occurrence is copied and the search goes on behind it |
| MessageBuilder.StrStr | strsub.c:67 | the place of the first occurrence from a place on |
| MessageBuilder.FindFirst | strsub.c:67 | at no place before the one found does the token stand, and nowhere if none is found |
| MessageBuilder.CountPass | strsub.c:66-69 | the number of occurrences, each searched for behind the one before |
| MessageBuilder.Replace | strsub.c:47-91 | the destination holds the text with every occurrence replaced, leftmost first and without overlap |
| MessageBuilder.BuildMsg | msgBuild.c:126-156 | for a table of any positive length, odd or even, the output holds the fold of the replacements, and the template is only read |

## Left out

* String tokens with an escape that the end of the text breaks off, or a `\u` escape with a quote or backslash among its
  four bytes: the two scans of the code disagree about where such a token ends, or leave the text. The result `Outside`
  stands for texts with one where the parser reaches it, and the methods exclude them. Comments and strings that are not
  closed: `Minifier.Tidy` excludes them, because the code leaves the text.
* Printing numbers that are not 32-bit integers (`%f`, `%e`).
* Operations on lists by name other than looking up, the `Create` functions, and the error pointer `ep`.
- Parser.ReadFigure: the decimal is exact, where the code computes with `double`; its rounding, and the cut to `int`,
  are not modelled.
- TextReader.ParseNumber: mantissa and exponent are exact for the same reason.
- StringDecoder.ParseString: a token with a broken escape is excluded, because the code reads or writes outside its
  blocks there.
- ItemParser.ParseValue: texts with such a token where the parser reaches it are excluded.
- ItemParser.ParseArray: texts with such a token where the parser reaches it are excluded.
- ItemParser.ParseObject: texts with such a token where the parser reaches it are excluded.
- ItemParser.ParseWithOpts: texts with such a token where the parser reaches it are excluded; a `NULL` text is not
  modelled.
- RoundTrip.ParseAndDelete: texts with such a token where the parser reaches it are excluded.
- Items.Delete: names that belong to somebody else (`cJSON_StringIsConst`) are not modelled: every node owns its name.
- ItemCopy.Duplicate: the flag for such names, which the copy keeps, is not modelled.
- ItemLists.AddItemToArray: the item that is added represents a value by itself; adding a reference is not modelled.
- BufferedPrinter.PrintBuffered: texts longer than 2^30 less 32 bytes are excluded, because `int` sizes would
  overflow.
- ExactPrinter.PrintValue: lengths are unbounded; the overflow of the `int` in which the code adds them up, on texts of
  2^31 bytes and more, is not modelled.
* `fopen` failing, Windows line ends being translated, and partial writes.
- PhoneRecords.Records.AddRecord: strings of more than 20 bytes are cut as the code does, but the invariant over runs
  takes strings that fit and hold neither quotes nor backslashes; times are 32-bit.
- PhoneRecords.Records.constructor: nothing is said of the table if reading the file crashes.
- PhoneRecords.GetStr: a member that is no string is excluded, because the code copies from a null pointer.
- PhoneRecords.GetInt: a member that is no 32-bit integer is excluded, because `valueint` is modelled for these only.
* Phone operations are atomic; concurrent unlocked access is not modelled.
- Config.JConfig.Open: the group and variable lists are sequences of records, so that node addresses, and a pointer to
  a value that was handed out before a write, are not modelled.
- Queue.QueueTable.CreateQueue: if all ten controls are in use the code follows a null pointer; that call is excluded.
- Queue.QueueCtrl.Enqueue: an element is one value, so that copying fewer bytes than an element has is not modelled.
- AlertQueue.MsgQueue.Tick: the timer is unbounded, so that decrementing the least 32-bit number is not modelled.
- MessageBuilder.BuildMsg: buffers must be large enough for every intermediate text, as the code takes for granted;
  reading the template file and the audio names from the settings are not modelled.
* Integer readings of settings, listing groups and variables by position, dumps, and allocation and queue counters.
* The network server, message sending, plug-ins, start-up, alarms, logging and the XML reader.
