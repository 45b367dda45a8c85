# Verified models of the SDK's self-contained algorithms

The SDK's drivers sit on closed hardware libraries, but a number of its files
hold whole algorithms and protocols.  This project models those in Dafny, in
the form the C code has them (loops over buffers, fields updated in place),
and proves what they are for.

Check everything with `dafny verify dfyconfig.toml`.

## Modules

- **cJSON** (`JsonText`, `JsonGrammar`, `JsonRoundTrip`, `JsonEscapes`,
  `JsonNumerals`, `JsonSpelling`, `JsonLanguage`, `JsonErrors`, `JsonParser`,
  `AllocatingPrinter`, `PrintedParts`, `BufferedPrinter`, `JsonLayout`,
  `JsonMinify`, `MinifyChunks`, `MinifySpelling`, `JsonMinifyInPlace`, `ChildList`, `WordBits`, `BitMasks`,
  `Unicode`, `Options`).  `JsonText` holds the tree and
  the one function `Text` that says how a tree prints; `JsonGrammar` holds a
  recursive reading of the parser.  The two printers, the parser's loops and
  the in-place minifier are methods proved against these; the round trips, and
  the exact language the parser accepts and where it stops in any other text
  (`JsonSpelling`, `JsonLanguage`, `JsonErrors`), are proved about these.  The child list is a class whose `next` and `prev` links are
  rewritten.
- **I2C** (`I2cBus`, `SoftIic`).  The bus is two open-drain wires; a reference
  receiver decodes its trace into START, bytes with their answers, and STOP
  (sections 3.1.3 to 3.1.6 of NXP UM10204).  The slave is an arbitrary oracle
  for answers and data that changes its drive only while SCL is low.
- **NOR flash** (`FlashChip`, `NorFlash`, `FlashRuns`).  A chip whose program
  command ANDs and wraps in its page, the driver's one-sector write-back cache
  on it, and the arrays that chip and driver refine over every run.
- **NEC infrared** (`IrEncoder`, `IrCarrier`, `IrDecoder`).  The tick-driven transmitter and
  the interval-driven receiver, joined through time.
- **RLE window decoding** (`Rle`, `RleBlocks`), **key scanning** (`KeyDriver`,
  `KeyPresses`), **UTF-8 to UTF-16** (`Utf16`), **text layout** (`TextLayout`,
  `TextPlaces`), the **sample source** (`SinSource`) and **line drawing**
  (`LcdLine`).

A few predicates state a fact about a recursive function for any value marked
by `Recall` (`RecallText` in `TextLayout`); asserting the mark brings the fact back, and keeps it out of
proofs that do not need it.

## Where the code falls short

These are properties that do not hold of the code; each has the exact condition
under which it does.

- A cached flash read that starts below the dirty cached sector and runs into it
  gets stale bytes there, and no other read does (`NorFlash.ReadRightIff`).
- The open count of the flash is one byte.  The 256th nested open makes it zero
  and changes nothing else; a close then still writes the cache back.  An open
  at zero loads a new buffer, and bytes that only the old one held are lost.
  The driver is a plain array for all contents exactly when no open finds the
  count at zero while bytes are pending (`FlashRuns.KeptIff`,
  `FlashRuns.LostByte`).
- The buffered JSON printer reuses the variable that holds an object's start as a
  loop counter, so for a formatted non-empty object it returns a pointer to its
  depth in the buffer (`BufferedPrinter.ReturnedAt`).  At the top level the depth
  is 0, so `cJSON_PrintBuffered` is right; nested, the pointer is not used.
- The minifier scans past the end of a text exactly when a literal or a block
  comment in it is not closed (`JsonMinifyInPlace.Minify`,
  `JsonMinify.ClosingQuote`, `JsonMinify.ClosingStar`,
  `JsonMinifyInPlace.UnclosedLiteralEscapes`,
  `JsonMinifyInPlace.UnclosedCommentEscapes`).
- The star that opens a block comment can close it as well: a comment ends where
  its text does exactly when that text does not begin with a slash
  (`MinifyChunks.CommentEndsIff`, `MinifyChunks.SlashAfterStar`).
- The parser accepts more than JSON: a lone minus, a zero before other digits,
  any escaped byte, broken surrogates, a literal that ends with the text, and
  control bytes as white space (`JsonLanguage.DocumentIff`).
- A soft I2C read is sure to end with a STOP exactly when it asks for a byte
  (`SoftIic.StopsIff`).  An empty one lets the slave start a byte, and makes a
  STOP only if the first bit of that byte is a one.
- The receiver's windows for a repeat code and for a header overlap; a repeat
  measured above 12161 us is taken for a header (`IrDecoder.RepeatRecognized`).
- The UTF-16 length is kept in 16 bits, so 32768 characters or more are cut
  (`Utf16.RendererSees`).
- Clicks are counted in 8 bits: from 256 presses on, the event is the right one
  exactly when the count modulo 256 is at least 5 (`KeyPresses.ClicksCounted`,
  `KeyPresses.LostPresses`).  The click delay is counted in 8 bits too, and one of
  255 never ends (`KeyPresses.LongestDelayNeverEnds`).
- The sample source counts whole periods in 8 bits; a request with 256 or more
  leaves the tail of the buffer unwritten, though the phase stays right
  (`SinSource.CopiedWhole`, `SinSource.NextIsLater`).
- The line leaves its half-pixel band exactly when at some step one of the two
  products of its 32-bit test passes 2 to the 32 and the other does not; looking
  at two steps tells (`LcdLine.SafeIff`).  It cannot happen while the product of
  the extents is below 2 to the 31, and does on a diagonal of 46341 pixels
  (`LcdLine.FollowsUpTo`, `LcdLine.SmallIsSafe`, `LcdLine.DiagonalIsNotSafe`).

## Model

| member | source | states |
|---|---|---|
| JsonRoundTrip.DocumentRoundTrip | sdk/apps/common/cJSON/cJSON.c:533-693 | For every tree of null, booleans, 32-bit integers, strings, arrays and objects, parsing its formatted or unformatted print gives back that very tree and leaves no text over, whether or not an end is required |
| JsonRoundTrip.ValueRoundTrip | sdk/apps/common/cJSON/cJSON.c:589-693 | The same for a value followed by any text that cannot lengthen it: exactly the printed text is consumed |
| JsonRoundTrip.StringRoundTrip | sdk/apps/common/cJSON/cJSON.c:303-508 | A printed string, whatever quotes, backslashes, control bytes or other non-NUL bytes it holds, is read back as itself up to its closing quote |
| JsonRoundTrip.NumberRoundTrip | sdk/apps/common/cJSON/cJSON.c:116-153 | The decimal text of every 32-bit integer, the smallest included, is read back as that integer |
| JsonRoundTrip.ArrayRoundTrip | sdk/apps/common/cJSON/cJSON.c:696-738 | Elements, separators and indentation of a printed array are read back as its elements, in order |
| JsonRoundTrip.ObjectRoundTrip | sdk/apps/common/cJSON/cJSON.c:860-922 | Names, values and layout of a printed object are read back as its members, in order |
| JsonRoundTrip.TextIsInjective | sdk/apps/common/cJSON/cJSON.c:569-576 | Two different trees never have the same printed text |
| JsonParser.ParseWithOpts | sdk/apps/common/cJSON/cJSON.c:533-561 | The parse is that of the reference grammar on every text the grammar covers; a failure reports the text at the error pointer |
| JsonParser.ParseValue | sdk/apps/common/cJSON/cJSON.c:589-622 | The seven cases of a value, with the value and the rest of the text of the reference grammar, or its error position |
| JsonParser.ParseArray | sdk/apps/common/cJSON/cJSON.c:696-738 | Elements are linked in order of reading; a missing bracket fails where the code says |
| JsonParser.ParseObject | sdk/apps/common/cJSON/cJSON.c:860-922 | Members are linked in order of reading; a missing name, colon or brace fails where the code says |
| JsonParser.ParseString | sdk/apps/common/cJSON/cJSON.c:303-406 | The two passes give the unescaped bytes of the literal; every write is inside the counted length plus one |
| JsonParser.SecondPassFits | sdk/apps/common/cJSON/cJSON.c:309-403 | The second pass of a literal never produces more bytes than the first pass counted, for every literal whose escapes are well formed |
| JsonParser.ParseNumber | sdk/apps/common/cJSON/cJSON.c:116-153 | The digit loop gives the value of the digit run, with its sign |
| JsonEscapes.LiteralReads | sdk/apps/common/cJSON/cJSON.c:303-406 | For every well-formed literal of plain bytes, simple escapes, \u escapes (any number, its digits in any case) and surrogate pairs (section 7 of RFC 8259) the result is its UTF-8 text |
| JsonLanguage.DocumentIff | sdk/apps/common/cJSON/cJSON.c:533-922 | A text is parsed as a tree if and only if it is white space, a spelling of that tree the code accepts, and a rest (white space, if the end is required); the accepted spellings are given as a grammar, with the numerals, escapes and unclosed literals the code lets pass |
| JsonLanguage.ValueIff | sdk/apps/common/cJSON/cJSON.c:589-622 | The same for a value inside a text and what follows it |
| JsonNumerals.NumeralOf | sdk/apps/common/cJSON/cJSON.c:116-153 | Whatever is read as a number is an optional minus, an optional zero and digits without a leading zero; a lone minus counts as zero |
| JsonNumerals.NumeralReads | sdk/apps/common/cJSON/cJSON.c:116-153 | Every such numeral is read as the number its digits denote |
| JsonNumerals.DecimalIsProper | sdk/apps/common/cJSON/cJSON.c:212-253 | Every 32-bit integer is printed as section 6 of RFC 8259 has it: a minus only below zero, no zero in front, and digits that denote it |
| JsonEscapes.PiecesOf | sdk/apps/common/cJSON/cJSON.c:303-406 | Whatever is read as a string literal consists of plain bytes, escaped bytes and \u escapes, and means what these mean; only the end of the text can stand for the closing quote |
| JsonEscapes.AnyPieceReads | sdk/apps/common/cJSON/cJSON.c:324-399 | Each piece of a literal is read as its meaning, or, where it has none, as the escaped byte or as nothing |
| JsonEscapes.Hex4Reads | sdk/apps/common/cJSON/cJSON.c:256-300 | The four hexadecimal digits of every 16-bit number, each in lower or upper case as one likes, are read as that number; a digit is worth its place in `0123456789abcdef` |
| JsonEscapes.Hex4Of | sdk/apps/common/cJSON/cJSON.c:256-300 | Whatever four bytes are read as a number are its four digits, in one of the cases |
| JsonEscapes.SurrogatesJoin | sdk/apps/common/cJSON/cJSON.c:352-366 | The two surrogates of every code point beyond the basic plane are joined to that code point |
| JsonErrors.ErrorIff | sdk/apps/common/cJSON/cJSON.c:533-922 | The parse fails with its error pointer at a given place if and only if the text stops there: its part before is one of a text in the accepted spelling, given as a grammar of unfinished arrays and objects, and what is missing (a value, name, colon, comma or bracket) does not begin there, or the text goes on behind its value where the end is required |
| JsonErrors.StopsRead | sdk/apps/common/cJSON/cJSON.c:589-922 | The same for a value inside a text, and whatever is nested in it: an unfinished value fails where it stops |
| JsonSpelling.DocumentReads | sdk/apps/common/cJSON/cJSON.c:533-922 | For every tree, with any white space between its tokens and any well-formed spelling of its strings and integers, the parse of the whole text gives that tree and, where the end is required, nothing is left |
| JsonSpelling.SpellingReads | sdk/apps/common/cJSON/cJSON.c:589-622 | Every accepted spelling of a value inside a text is read as that value, up to its end |
| JsonSpelling.ProperAccepted | sdk/apps/common/cJSON/cJSON.c:589-622 | The well-formed spellings of RFC 8259 are accepted before anything that cannot lengthen a number |
| JsonSpelling.ItemsRead | sdk/apps/common/cJSON/cJSON.c:696-738 | Elements in any accepted spelling, with any white space around each, are read in order up to the bracket |
| JsonSpelling.MembersRead | sdk/apps/common/cJSON/cJSON.c:860-922 | Members in any accepted spelling, with any white space around names, colons and values, are read in order up to the brace |
| JsonParser.MasksCombine | sdk/apps/common/cJSON/cJSON.c:352-366 | The masks and shifts on two surrogates compute the code point of their pair, bit operations and all |
| Unicode.EncodedDecodes | sdk/apps/common/cJSON/cJSON.c:368-391 | The UTF-8 bytes written for a code point that is no surrogate decode back to it under section 3 of RFC 3629 |
| BitMasks.Continuation | sdk/apps/common/cJSON/cJSON.c:378-390 | `(uc | 0x80) & 0xBF` is the continuation byte of the low six bits, for any word |
| AllocatingPrinter.Print | sdk/apps/common/cJSON/cJSON.c:569-576 | The compose-and-concatenate printer yields the text of the tree, formatted or not |
| AllocatingPrinter.PrintValue | sdk/apps/common/cJSON/cJSON.c:625-693 | The same for a value at any depth |
| AllocatingPrinter.PrintString | sdk/apps/common/cJSON/cJSON.c:409-508 | The quoted and escaped string, with a buffer of exactly the counted length |
| AllocatingPrinter.CollectItems | sdk/apps/common/cJSON/cJSON.c:805-816 | The room added up over the elements is at least what their text with brackets and terminator needs |
| AllocatingPrinter.ComposeArray | sdk/apps/common/cJSON/cJSON.c:836-854 | Joining the element strings in a buffer of that room never writes past it and gives the array's text |
| AllocatingPrinter.ComposeObject | sdk/apps/common/cJSON/cJSON.c:1080-1117 | The same for names, values, indentation and braces of an object |
| BufferedPrinter.PrintBuffered | sdk/apps/common/cJSON/cJSON.c:578-585 | For every tree, format and initial size the buffered printer leaves the allocating printer's text, and its pointer at the start |
| BufferedPrinter.PrintBuffer.PrintValue | sdk/apps/common/cJSON/cJSON.c:625-693 | Printing a value appends exactly its text after everything printed before; the returned pointer is where `ReturnedAt` says |
| BufferedPrinter.PrintBuffer.PrintArray | sdk/apps/common/cJSON/cJSON.c:767-797 | The in-place path of arrays appends the array's text |
| BufferedPrinter.PrintBuffer.PrintObject | sdk/apps/common/cJSON/cJSON.c:959-1025 | The in-place path of objects appends the object's text although the start index is reused as a loop counter |
| BufferedPrinter.PrintBuffer.Ensure | sdk/apps/common/cJSON/cJSON.c:173-199 | The buffer stays if the bytes asked for fit; if not there is a new one, of the least power of two that holds them; every old byte is kept |
| BufferedPrinter.PrintBuffer.Update | sdk/apps/common/cJSON/cJSON.c:201-209 | `offset` moves to the terminator of the string last written |
| WordBits.Pow2gt | sdk/apps/common/cJSON/cJSON.c:156-170 | The result is the least power of two that is at least the argument, for every positive argument whose result is an `int`, and 0 for the others down to the smallest but one |
| PrintedParts.PutQuoted | sdk/apps/common/cJSON/cJSON.c:409-508 | The escape loop writes the quoted string and its terminator and nothing beyond |
| PrintedParts.DecimalFits | sdk/apps/common/cJSON/cJSON.c:212-228 | The decimal text of any `int` with its terminator fits 21 bytes |
| JsonLayout.PrintIsLaidOut | sdk/apps/common/cJSON/cJSON.c:569-1118 | The formatted print is the unformatted one with a layout that is a rule on its bytes: new lines behind opening braces, before closing ones and behind the commas of an object, each with one tab for each thing open; a space behind the commas of an array; a tab behind colons; an empty object has one line with one tab less |
| JsonLayout.LaysText | sdk/apps/common/cJSON/cJSON.c:625-1118 | The same for a value inside whatever is open around it |
| JsonEscapes.PrintedPiece | sdk/apps/common/cJSON/cJSON.c:409-508 | A byte of a string is printed as itself unless it is a quote, a backslash or a control byte; then with its short escape of section 7 of RFC 8259 if it has one, and else with \u and four digits in lower case |
| JsonLayout.PrintedAsItIs | sdk/apps/common/cJSON/cJSON.c:409-508 | A string is printed as it is between its quotes if and only if it holds no control byte, quote or backslash |
| JsonMinify.MinifyPrinted | sdk/apps/common/cJSON/cJSON.c:1496-1531 | Minifying the formatted print gives the unformatted print, and leaves the unformatted print as it is |
| JsonMinify.ShrinksText | sdk/apps/common/cJSON/cJSON.c:1496-1531 | Printed text anywhere outside a literal shrinks to exactly the unformatted text of its tree |
| JsonMinifyInPlace.Minify | sdk/apps/common/cJSON/cJSON.c:1496-1531 | The in-place loop stays inside the text if and only if every literal and block comment is closed; then it leaves the minified text with its terminator; reading stays at or ahead of writing, and bytes after the text keep their values in either case |
| JsonMinify.ClosingQuote | sdk/apps/common/cJSON/cJSON.c:1517-1525 | A literal ends at the first quote with an even number of backslashes right before it, and is unclosed if and only if there is none |
| JsonMinify.ClosingStar | sdk/apps/common/cJSON/cJSON.c:1512-1516 | A block comment ends behind the first star with a slash behind it, and is unclosed if and only if there is none |
| MinifyChunks.LineEnds | sdk/apps/common/cJSON/cJSON.c:1508-1511 | A line comment ends before the first line feed, or with the text if and only if there is none |
| MinifyChunks.ChunksKept | sdk/apps/common/cJSON/cJSON.c:1496-1531 | Of a text that is a sequence of white space, comments, literals and other bytes exactly the last two stay, in their order |
| MinifyChunks.ChunksOf | sdk/apps/common/cJSON/cJSON.c:1496-1531 | Every text that is scanned to its end is such a sequence |
| MinifyChunks.CommentEndsIff | sdk/apps/common/cJSON/cJSON.c:1512-1516 | A block comment ends where its text does if and only if the text does not begin with a slash, which the opening star would close it with |
| MinifyChunks.SlashAfterStar | sdk/apps/common/cJSON/cJSON.c:1512-1516 | Of `/*/a*/` the last three bytes stay |
| JsonMinifyInPlace.UnclosedLiteralEscapes | sdk/apps/common/cJSON/cJSON.c:1517-1525 | A literal without its closing quote is an input that is scanned past its end |
| JsonMinifyInPlace.UnclosedCommentEscapes | sdk/apps/common/cJSON/cJSON.c:1512-1516 | So is a block comment without its end |
| MinifySpelling.MinifyKeepsValue | sdk/apps/common/cJSON/cJSON.c:1496-1531 | Minifying any well-formed text, with white space, line comments and block comments between any two of its tokens and a last line comment without its line feed, leaves exactly its tokens, which are parsed as its value; without comments the text itself is parsed as the same value |
| MinifySpelling.CommentsIgnored | sdk/apps/common/cJSON/cJSON.c:1496-1531 | Two well-formed texts with the same tokens, whatever white space and comments stand between them, are minified to the same text |
| ChildList.ChainUnique | sdk/apps/common/cJSON/cJSON.c:1148-1152 | A well-formed chain stands for one sequence of nodes only |
| ChildList.GetArraySize | sdk/apps/common/cJSON/cJSON.c:1121-1129 | The length of the sequence |
| ChildList.GetArrayItem | sdk/apps/common/cJSON/cJSON.c:1130-1137 | The node at the position the countdown reaches, or null beyond the end; a negative index gives the first node |
| ChildList.AddItemToArray | sdk/apps/common/cJSON/cJSON.c:1168-1182 | The chain becomes the old sequence with the item at its end; only the last node's link changes |
| ChildList.InsertItemInArray | sdk/apps/common/cJSON/cJSON.c:1258-1276 | The chain becomes the sequence with the item inserted, or appended beyond the end; only the neighbours' links change |
| ChildList.DetachItemFromArray | sdk/apps/common/cJSON/cJSON.c:1215-1235 | The chain becomes the sequence without the node, which is returned unlinked |
| ChildList.ReplaceItemInArray | sdk/apps/common/cJSON/cJSON.c:1277-1298 | The chain becomes the sequence with the node at that place replaced, the old one unlinked |
| ChildList.RemovedUndoesInserted | sdk/apps/common/cJSON/cJSON.c:1215-1276 | Detaching at the place of an insertion gives back the inserted node and the old sequence |
| SoftIic.Master.WriteRegister | sdk/cpu/iic_api.c:62-105 | For every slave behaviour the receiver hears START, the bytes MSB first up to and including the first one refused, STOP; the return value counts the acknowledged data bytes or names the refused address; the busy nibble is left clear; the trace is extended by lines in which SDA changes under a high SCL exactly twice (section 3.1.3 of NXP UM10204); a busy bus is not touched |
| SoftIic.Master.ReadRegister | sdk/cpu/iic_api.c:11-57 | The bytes stored are those the slave shifted out, all acknowledged but the last; every path that took the busy nibble clears it; in the lines the read adds to the trace SDA changes under a high SCL once for each START and once if there is a STOP |
| SoftIic.StopsIff | sdk/cpu/iic_api.c:50-52 | A read ends with a STOP whatever the slave does if and only if it asks for at least one byte; a slave that acknowledges all and sends zeros keeps an empty read from it |
| SoftIic.WriteCodes | sdk/cpu/iic_api.c:62-105 | A write returns -7 if and only if the slave refuses the device address, -8 if and only if it takes that and refuses a register byte, and else the number of data bytes it acknowledges before it refuses one |
| SoftIic.ReadCodes | sdk/cpu/iic_api.c:11-57 | A read returns -7 if and only if the device address is refused, before or after the register bytes, -8 if and only if a register byte is, -6 if no byte is asked for, and else the number asked for |
| SoftIic.Master.ReadBuffer | sdk/cpu/iic_soft.c:296-308 | Exactly `len` bytes are stored, the last one answered by a NACK; no buffer or no length is an error without bus activity |
| SoftIic.Master.SendStart | sdk/cpu/iic_soft.c:140-158 | A START, or a repeated START inside a transaction |
| SoftIic.Master.SendStop | sdk/cpu/iic_soft.c:160-173 | A STOP unless the slave holds SDA; the busy nibble is cleared either way |
| SoftIic.Master.CheckBusy | sdk/cpu/iic_soft.c:127-133 | Busy is refused, idle is taken |
| SoftIic.Master.TxByte | sdk/cpu/iic_soft.c:238-259 | The receiver gets the byte, most significant bit first, and its answer is returned |
| SoftIic.Master.RxByte | sdk/cpu/iic_soft.c:261-293 | The byte the slave shifts out is returned, and the master's answer is the one asked for |
| SoftIic.Master.CheckAck | sdk/cpu/iic_soft.c:182-208 | The ninth pulse, with SDA released, samples the slave's answer |
| I2cBus.ChangesAreConditions | sdk/cpu/iic_soft.c:140-180 | On any trace, every change of SDA under a high SCL is a START or STOP the receiver reports, and the other way round |
| I2cBus.ByteOfBits | sdk/cpu/iic_soft.c:238-259 | Eight clocked bits, most significant first, make the byte they were taken from |
| FlashRuns.Run | sdk/cpu/cd09/norflash.c:282-596 | Over every run of open, close, cached read, cached write, timer and flush, however often it opens, chip and image are exactly those of a model of two arrays; every read gives the image, or the chip where it straddles the start of the dirty sector; where no open loses bytes the image is the plain array of the writes |
| FlashRuns.KeptIff | sdk/cpu/cd09/norflash.c:282-596 | The image is the plain array after every call of a run, for all contents of chip, cache and writes, if and only if no open finds the 8-bit count at zero while bytes are pending |
| FlashRuns.LostByte | sdk/cpu/cd09/norflash.c:282-351 | One byte written, and opens until the count is zero again: a close then still stores the byte, another open forgets it |
| FlashRuns.DriverFits | sdk/cpu/cd09/norflash.c:282-596 | Every driver is in one of the states this is said of, with its dirty flag for what is pending |
| FlashRuns.Perform | sdk/cpu/cd09/norflash.c:282-596 | One operation acts on the driver as on the two arrays and moves the cache as predicted |
| NorFlash.Driver.Write | sdk/cpu/cd09/norflash.c:478-565 | A write of any length across any number of sectors changes exactly its range of the image; the chip then holds all of it but the part that stays in the cache |
| NorFlash.Driver.Read | sdk/cpu/cd09/norflash.c:353-416 | A read gives the image's bytes, unless it starts below the dirty cached sector and runs into it; then the chip's |
| NorFlash.ReadRightIff | sdk/cpu/cd09/norflash.c:353-416 | A read through a dirty cache is right for all contents if and only if it does not start below the cached sector and run into it |
| NorFlash.Driver.WritePages | sdk/cpu/cd09/norflash.c:418-454 | The program commands tile the range exactly once and each stays in its 256-byte page; the effect is that of programming the range at once |
| NorFlash.Driver.WriteBack | sdk/cpu/cd09/norflash.c:457-476 | Erase and rewrite leave the sector equal to the cache and every other sector untouched |
| NorFlash.Driver.EraseSector | sdk/cpu/cd09/norflash.c:567-596 | The sector of the address, and nothing else, becomes 0xFF |
| NorFlash.Driver.CacheSyncTimer | sdk/cpu/cd09/norflash.c:457-476 | The image is unchanged, nothing is dirty, and the raw chip equals the image |
| NorFlash.Driver.Flush | sdk/cpu/cd09/norflash.c:634-643 | The image is unchanged and the raw chip equals it |
| NorFlash.Driver.Open | sdk/cpu/cd09/norflash.c:282-325 | An open at a count above zero only counts; at zero it loads sector 0 past the cache check and presents the chip; the image is kept if and only if the count was above zero or the chip already held it |
| NorFlash.Driver.Close | sdk/cpu/cd09/norflash.c:327-351 | Closing keeps the image; a close that leaves the count at zero leaves all of it in the raw chip |
| FlashChip.TilesProgram | sdk/cpu/cd09/norflash.c:418-454 | Commands that tile a range have the effect of programming it at once |
| FlashChip.EraseThenProgram | sdk/cpu/cd09/norflash.c:457-476 | Erasing a sector and programming all of it stores exactly the data there |
| FlashChip.NoWrap | sdk/cpu/cd09/norflash.c:418-454 | A program command that stays inside its page is not affected by the chip's wrap at the page end |
| IrDecoder.RoundTrip | sdk/cpu/components/ir_decoder.c:92-123 | From any decoder state and any first interrupt, the carrier-on intervals of the encoder for any address and command, each measured within its window and the system tick running on by what was measured, leave exactly that frame, and each repeat makes one more command available modulo 256 |
| IrDecoder.InTime | sdk/cpu/components/ir_decoder.c:43-58 | No interval of a transmission can time out, wherever its edges fall between system ticks of at most 41 ms |
| IrDecoder.Receive | sdk/cpu/components/ir_decoder.c:92-123 | The handler called for each interrupt of a run leaves what the run of steps leaves |
| IrDecoder.FrameIsReceived | sdk/cpu/components/ir_decoder.c:59-123 | The same for any 32-bit word and any measurements of the NEC intervals |
| IrDecoder.KindIff | sdk/cpu/components/ir_decoder.c:59-82 | Which times are taken for a header, a zero, a one and a repeat, as exact bounds in microseconds; any other time is none of them |
| IrDecoder.RepeatRecognized | sdk/cpu/components/ir_decoder.c:59-82 | A time less than a tenth off a repeat code counts as a repeat if and only if it is at most 12161 us; above, it is taken for a header |
| IrDecoder.LateIff | sdk/cpu/components/ir_decoder.c:43-58 | An edge is late if and only if the ticks since the last one make 150 ms, also across the wrap of the 32-bit clock; a clock that runs backwards makes none late |
| IrDecoder.NoiseIgnored | sdk/cpu/components/ir_decoder.c:92-123 | Late edges and times outside all windows leave no trace in what is received |
| IrDecoder.FrameThroughNoise | sdk/cpu/components/ir_decoder.c:92-123 | A frame and its repeats arrive through any such edges between those of the transmission |
| IrDecoder.Recognized | sdk/cpu/components/ir_decoder.c:59-82 | Every interval a transmitter sends is recognized as its own kind from any measurement in its window |
| IrDecoder.Decoder.CaptureIrq | sdk/cpu/components/ir_decoder.c:92-123 | One capture interrupt, with the timeout, acts on the state as one step of the receiver |
| IrDecoder.Decoder.GetData | sdk/cpu/components/ir_decoder.c:152-159 | The word, once for each available command; all ones when there is none |
| IrDecoder.Decoder.GetCommandValue | sdk/cpu/components/ir_decoder.c:161-172 | The command byte if its complement agrees, else 255; all ones with nothing available |
| IrDecoder.Decoder.GetAddressValue | sdk/cpu/components/ir_decoder.c:183-194 | The address byte if its complement agrees, else 255; all ones with nothing available |
| IrDecoder.FrameParts | sdk/cpu/components/ir_decoder.c:161-194 | From the frame of an address and a command both are read back |
| IrEncoder.FrameIsSent | sdk/cpu/components/ir_encoder.c:93-262 | For every word and number of repeats the carrier goes on at moments whose distances are the NEC head, the 32 bits least significant first, and a pause and code for each repeat; without repeats the transmitter is then at rest, its timer stopped |
| IrCarrier.CarrierIsNec | sdk/cpu/components/ir_encoder.c:93-262 | For every word and number of repeats the carrier over time is the NEC code: on 16 ticks and off 8, for each bit least significant first on 1 and off 1 or 3, for the end on 1, and for each repeat a pause, on 16, off 4 and on 1; the two ticks before are dark |
| IrCarrier.MarkIsLit | sdk/cpu/components/ir_encoder.c:93-114 | In every state of a transmission the carrier is on exactly while a mark is played |
| IrCarrier.RestIsDark | sdk/cpu/components/ir_encoder.c:154-199 | Whatever is being sent when repeating is stopped, the carrier is off when the transmitter comes to rest |
| IrEncoder.OneSymbol | sdk/cpu/components/ir_encoder.c:93-114 | A symbol lasts the sum of its two counts and turns the carrier on once, at its first tick |
| IrEncoder.FrameEnds | sdk/cpu/components/ir_encoder.c:93-262 | A frame without repeats ends at rest, the timer stopped, when the time of its symbols is over |
| IrEncoder.ComesToRest | sdk/cpu/components/ir_encoder.c:154-199 | With the repeat flag down every state of a transmission comes to rest in at most 196 ticks, and its timer runs until then and no longer |
| IrEncoder.PlaysOrEnds | sdk/cpu/components/ir_encoder.c:154-199 | Every tick of a transmission goes on with it or ends it at rest |
| IrEncoder.Encoder.TimerIrq | sdk/cpu/components/ir_encoder.c:154-199 | One timer interrupt acts on the structure and on the carrier as one step of the state machine |
| IrEncoder.Encoder.RepeatStop | sdk/cpu/components/ir_encoder.c:264-267 | Only the repeat flag falls, and whatever is being sent ends at rest, the timer stopped, within 196 ticks |
| IrEncoder.Encoder.Tx | sdk/cpu/components/ir_encoder.c:245-262 | A request at rest loads address, command and their complements; a busy transmitter refuses it |
| Rle.RleDecode | sdk/apps/common/ui/resource/rle.c:4-104 | Decoding succeeds if and only if the window lies in the decoded stream and the limit covers the blocks up to its end; the output then is bytes offset to offset+len of the full decode, nothing after them is written, and the value returned is that of `Returned` |
| RleBlocks.EncodedDecodes | sdk/apps/common/ui/resource/rle.c:21-95 | Decoding undoes an encoder of runs and of literal pixels, given apart from it: the full decode of the encoded blocks is their pixels one after the other |
| RleBlocks.BlocksOf | sdk/apps/common/ui/resource/rle.c:21-95 | Every well-formed stream is the encoding of some blocks |
| RleBlocks.ReturnsBlockStart | sdk/apps/common/ui/resource/rle.c:98-104 | What is returned for a window that is reached: how many bytes the blocks before the one it ends in decode to, if that one lies within the limit |
| RleBlocks.ReturnsWithoutEnd | sdk/apps/common/ui/resource/rle.c:98-104 | What is returned for a window that reaches beyond the stream |
| Rle.TakeBlock | sdk/apps/common/ui/resource/rle.c:21-95 | A block straddling either edge of the window contributes exactly its part in the window |
| Rle.FillRun | sdk/apps/common/ui/resource/rle.c:25-38 | A repeated pixel is written alike by the fill and by the pixel loop |
| Rle.CoveredIffInside | sdk/apps/common/ui/resource/rle.c:98-103 | With room for everything the condition is just that the window lies inside the decoded stream |
| KeyDriver.Scanner.KeyDriverScan | sdk/apps/common/device/key/key_driver.c:25-134 | One scan acts on the counters, and emits an event or none, as one step of the state machine |
| KeyDriver.RunIsJudged | sdk/apps/common/device/key/key_driver.c:34-50 | Whatever bounces a run of readings holds, its events are those of its accepted readings |
| KeyDriver.AcceptedIff | sdk/apps/common/device/key/key_driver.c:37-46 | A reading is accepted if and only if the filter_time+1 readings before it are like it, power-up counting as one; all are if filter_time is 0 |
| KeyDriver.ChangeIsDelayed | sdk/apps/common/device/key/key_driver.c:37-46 | After a change of value exactly filter_time+1 readings (none if filter_time is 0) are passed over, then all are accepted |
| KeyDriver.HeldKey | sdk/apps/common/device/key/key_driver.c:102-117 | A held key emits nothing before its long_time-th accepted reading, LONG at it, and a HOLD every hold_time-long_time after |
| KeyDriver.HoldsFall | sdk/apps/common/device/key/key_driver.c:102-117 | After LONG there are m HOLDs exactly from accepted reading long_time + m*(hold_time-long_time) up to the next mark |
| KeyDriver.SteadyPress | sdk/apps/common/device/key/key_driver.c:50-134 | A whole long press emits LONG, its HOLDs, one UP on release, and no click |
| KeyPresses.RunIsTold | sdk/apps/common/device/key/key_driver.c:50-134 | From rest, a run of presses of any keys, lengths and pauses, with or without a reading of none between two keys, reports exactly this: each long press its LONG, HOLDs and UP (none if another key follows at once), dropping the clicks that wait, and each row of short presses of one key one event when a pause is longer than the click delay |
| KeyPresses.PressesOf | sdk/apps/common/device/key/key_driver.c:50-134 | Any accepted readings at all are a pause and such presses |
| KeyPresses.ShortPresses | sdk/apps/common/device/key/key_driver.c:61-97 | Short presses of any keys, each before the delay of the last ends, are reported as one event of the last key, for the unbroken presses of it at the end |
| KeyPresses.ClicksCounted | sdk/apps/common/device/key/key_driver.c:61-97 | Over every run of such readings, k last presses of one key are reported as the event of kind min(k,5) if and only if k is below 256 or k modulo 256 is at least 5, and not at all if and only if k modulo 256 is 0 |
| KeyPresses.LostPresses | sdk/apps/common/device/key/key_driver.c:61-97 | 256 quick presses from power-up are lost, and 257 come out as one single click |
| KeyPresses.LongestDelayNeverEnds | sdk/apps/common/device/key/key_driver.c:76-97 | With a click delay of 255 no run ever reports a click, as the 8-bit delay counter cannot pass it |
| Utf16.Utf8ToUtf16 | sdk/apps/common/font/font_textout.c:89-186 | The buffer holds the units of the longest accepted prefix, two bytes each in the byte order asked for; twice the input length is enough room and the rest is untouched; the returned length is kept in 16 bits |
| Utf16.RendererSees | sdk/apps/common/font/font_textout.c:205-211 | What the renderer reads from converted basic-plane text is its first characters modulo 32768, hence the text itself if and only if it has at most 32767 characters, for either byte order |
| Utf16.EncodedUnits | sdk/apps/common/font/font_textout.c:96-183 | The units of any well-formed UTF-8 text, whatever follows it, are its basic-plane code points, with 0xFFFF for the others |
| Utf16.ConvertedUpTo | sdk/apps/common/font/font_textout.c:96-183 | Of a text that goes on behind its well-formed part just that part is converted if and only if it goes on with a byte that begins no character, or with a character cut short |
| BitMasks.ThreeSixes | sdk/apps/common/font/font_textout.c:117-132 | The shifted and masked fields of a three-byte character do not overlap: their union is a sum |
| TextLayout.Renderer.TextOut | sdk/apps/common/font/font_unicode.c:127-180 | The loop terminates although it takes its index back, for any widths; what it draws, its widths, height and index are those of a layout that never goes back |
| TextPlaces.TextIsPlaced | sdk/apps/common/font/font_unicode.c:127-180 | Where every cell is: the first at x = 0, each next one right behind the one before if it fits and no line feed lies between, else at x = 0 and lower by one size for each line feed and for the wrap; the text ends exactly where the next character fits neither on its line nor on a line below or a line feed has no line below, and the width adds up what was tried |
| TextLayout.RetrySame | sdk/apps/common/font/font_unicode.c:160-172 | Trying the same character again on the next line does not change the layout |
| TextLayout.LaidInside | sdk/apps/common/font/font_unicode.c:127-180 | Every drawn cell lies inside text_width by text_height |
| TextLayout.LaidApart | sdk/apps/common/font/font_unicode.c:127-180 | Of any two drawn cells the later begins right of the earlier on its line or lies on a lower line, so they are disjoint |
| TextLayout.TakenAreLaid | sdk/apps/common/font/font_unicode.c:136-180 | The cells are, in order, the glyphs of the characters taken; none is lost or repeated |
| TextLayout.Renderer.Display | sdk/apps/common/font/font_textout.c:200-219 | Conversion and layout together: what is drawn for a UTF-8 text is the layout of its units |
| SinSource.Source.DacIsrCallback | sdk/apps/common/sin_generator/sin_generator.c:46-71 | A request copies the table repeated from the kept phase, keeps offset plus remaining length equal to the table length, and leaves the phase after the samples asked for |
| SinSource.CopiedWhole | sdk/apps/common/sin_generator/sin_generator.c:57-63 | A request is filled if and only if its whole periods number fewer than 256 |
| SinSource.Play | sdk/apps/common/sin_generator/sin_generator.c:46-71 | Over any run of such requests the concatenated output is the table repeated, without a phase jump |
| SinSource.NextIsLater | sdk/apps/common/sin_generator/sin_generator.c:53-69 | The kept phase is that of the samples asked for, also where fewer were copied |
| LcdLine.DrawLine | sdk/apps/common/lcd/lcd_drive.c:483-539 | The loop plots the longer extent plus one points, at the offsets of the 32-bit walk, in all eight octants |
| LcdLine.LineIsDrawn | sdk/apps/common/lcd/lcd_drive.c:483-539 | On a line whose extents pass a test of two steps the points start at (xs,ys), end at (xe,ye), each touches the next, and each is within half a pixel of the straight line |
| LcdLine.SafeIff | sdk/apps/common/lcd/lcd_drive.c:483-539 | The test is exact: no step is misled if and only if the extents have a product below 2 to the 31, or the left product passes 2 to the 32 at the very step where the right one does |
| LcdLine.FollowsUpTo | sdk/apps/common/lcd/lcd_drive.c:535-537 | Every point so far is within half a pixel if and only if no step so far had one of its two products cut to 32 bits and the other not |
| LcdLine.SmallIsSafe | sdk/apps/common/lcd/lcd_drive.c:483-539 | That never happens when the product of the extents is below 2 to the 31, so not for extents up to 46340 |
| LcdLine.DiagonalIsNotSafe | sdk/apps/common/lcd/lcd_drive.c:483-539 | It does happen on the diagonal of 46341 pixels |

## Left out

- JsonParser.ParseWithOpts: does not cover texts with a fraction, an exponent, an integer beyond 32 bits or a malformed escape, because floating-point rounding is not modelled and a malformed escape can make the code read past the terminator.
- JsonParser.ParseValue: does not cover values with such parts, for the same reason.
- JsonParser.ParseArray: does not cover arrays with such parts, for the same reason.
- JsonParser.ParseObject: does not cover objects with such parts, for the same reason.
- JsonParser.ParseString: does not cover `\u` without four hexadecimal digits, or a backslash before the terminator, where the code reads past it.
- JsonParser.SecondPassFits: does not cover those literals either.
- JsonParser.ParseNumber: does not cover fractions, exponents and integers beyond 32 bits.
- JSON trees: the parser builds, and the printers walk, the tree as a value; the linked nodes themselves are modelled only for the array edits, and strings returned by the allocating printer are values. The `%f` and `%e` prints are not modelled.
- Allocation failure, `cJSON_Delete`, hooks, references, duplication, case-insensitive lookup and the creation functions.
- BufferedPrinter.PrintBuffered: does not cover texts beyond 2 to the 30 bytes, because there the `int` sizes of the code overflow.
- WordBits.Pow2gt: does not cover arguments above 2 to the 30, whose power of two is not an `int` (`WordBits.PowerFits`).
- JsonMinifyInPlace.Minify: does not model what the code does beyond the terminator of a text it leaves; the model stops there.
- I2C: clock stretching, several masters, delays, pin setup, suspend and resume.
- SoftIic.Master.WriteRegister: does not cover a write to an odd (read) device address, after which master and slave would both send; nor the 8-bit loop index over the register bytes, as their number is 8 bits wide too.
- SoftIic.Master.ReadRegister: does not cover an odd device address, or a negative length, for which the code stores a byte at a negative index.
- SoftIic.Master.ReadBuffer: does not cover a negative length.
- NOR flash: timeouts and error returns, the mutex, 4-byte addresses, SPI widths, partitions, uncached writes, and the erase requests of the ioctl interface, which do not look at the cache; reads and writes without a buffer, which the code makes through a null pointer.
- Flash addresses are unbounded numbers below the chip size; the 32-bit wrap of `addr + len` is not modelled.
- Infrared: the timers and pins, the interval from the capture hardware (a parameter), and the tick clock (a parameter).
- IrDecoder.RoundTrip: the first interrupt may bring anything, and every later interval must be measured within its window, with a clock that runs on by it; edges in between are covered only as far as they do not count (`IrDecoder.FrameThroughNoise`) and do not cut an interval in two.
- Rle.RleDecode: does not cover streams whose last block is cut short, which the code reads past, windows not aligned to pixels of two bytes, and other pixel sizes, which trip its assertion.
- KeyPresses.RunIsTold: requires long_time and hold_time in that order above 1, and a click delay below 255 (the largest is `KeyPresses.LongestDelayNeverEnds`); a run that begins inside a press is not covered.
- Key event remapping and the system's event queue; events are the scan's results.
- Utf16.Utf8ToUtf16: does not model the call with a null buffer, which only counts and which the repository does not make.
- Glyph bitmaps, their copying to the panel, the font file and its index; the width of a glyph is an arbitrary function of its character.
- TextLayout.Renderer.TextOut: requires a positive size that fits the box, an even length and coordinates that stay in 16 bits; without the first the loop need not end.
- The DAC setup and the sample rates; the table is any of up to 256 samples, where the driver has 80.
- Colours, the LCD controller's commands, rectangles and image blending.
- Register-level drivers (gpio, mcpwm, adc, power), USB, demos, and the libraries of which only headers are shown.
