# A verified model of mon_netflow's JSON library, memory pool and HTTP framing

mon_netflow dissects captured traffic. Three of its parts carry the logic that is hard to get right, and they
are modelled here in Dafny, with proofs:

* **cJSON** (`common/json/cJSON.c`): a recursive-descent parser that builds a doubly linked tree of heap items,
  a printer that sizes and fills a string per value, a second printer that appends to a growing buffer, an
  in-place minifier, deep copy and delete, and surgery on child lists.
* **The memory pool** (`memory_pool/mem_pool.c`): a bump allocator over a chain of equal blocks, and a list of
  large buffers whose headers live inside those blocks.
* **HTTP segmentation** (`proto_dissect/http/http_dissect.c`, lines 12 to 131): the head search, the split into
  lines, the Content-length lookup and the length of the first message in a stream.

`dafny verify dfyconfig.toml` checks everything.

## How the model is built

Text is a sequence of bytes without NUL; a buffer is a sequence of bytes whose C string ends at its first NUL.

`CHeap.Heap` is the process heap of the JSON code. It holds items (`struct cJSON`), character buffers and arrays
of pointers by address. `malloc` may fail at every call and otherwise returns any address that is not live, with
unknown contents; `free` demands a live block, so nothing can be freed twice; reading an item that is not live
is not expressible. A ghost flag records whether an allocation has failed. Every function that allocates says
exactly which blocks it leaves behind, whichever allocation fails.

A tree in the heap is described by a ghost skeleton (`Items.Node`): the addresses of the item, of its
`valuestring`, of its name, and the skeletons of its children. `Items.NodeFits` says the heap has that tree
(`prev` and `next` doubly linked, null at both ends), `Items.Sep` that no block is used twice,
`Items.Foot` lists its blocks and `Items.Denote` is the JSON value it holds. The methods of the parser, the
printers and the list functions are written step by step as the C code is, and are proved against functions on
values: `Json.Parse` (what a text means), `Json.Print` (the text of a tree), `Literal.Quoted`, `Utf8.Encode`,
`Minify.Minified`. Lemmas about these functions state what the library is for. What the functions themselves mean
is stated against references that are written from the standards and share no code with them: tables of digits,
letters, escapes and white space (`Spelling`), decimal numerals (`Numerals`), the units of a string literal
(`StringMeaning`), the grammar of the accepted texts (`Grammar`), the layout of printed ones (`Layout`), the pieces
of a text to be minified (`MinifyPieces`).

`MemPool.Pool` has the fields of the C structs as maps from addresses, the live `malloc`ed blocks with their
contents, and ghost fields for the chain, the pieces handed out, the header list, the peak of simultaneous large
allocations and whether `malloc` has failed. `Pool.Valid` holds between calls, for every run of `Palloc`, `PfreeLarge` and client writes.
Addresses are unbounded; the sizes of the two structs are 32 and 24, `malloc` returns multiples of 8, the pool
size is a multiple of 8 and at least 56, the page size is more than 24.

The files, in the order in which they build on each other:

* `Bytes`, `Spelling`, `Bits`, `Utf8`, `Utf8Bits`, `Literal`, `Json`: texts, escapes, the language the parser accepts and the text the printers give.
* `Numerals`, `StringMeaning`, `Grammar`, `Layout`: what numbers, literals, whole texts and printed trees mean.
* `RoundTrip`, `Minify`, `MinifyPieces`, `MinifyMeaning`: parsing undoes printing; what minifying drops, and that the
  meaning stays.
* `CHeap`, `Items`, `Growing`, `Ownership`: the heap, trees in it, growing them, deleting and duplicating them.
* `ParserScan`, `Parser`: the parser on the heap.
* `Writer`, `Blocks`, `Joining`, `Compose`, `Printer`: the printer that allocates a string per value.
* `Pow2`, `PrintBuffer`, `BufferPrinter`: the printer that appends to a growing buffer.
* `EndToEnd`: the functions one after the other.
* `ListEdit`, `ListLookup`, `ListReplace`, `ListOutcome`: child lists, and that each edit has one outcome only.
* `MemPool`: the memory pool. `HttpSegment`, `HttpLength`: message framing, and how lengths are spelled.

## Where the code falls short of its purpose

* **Minifying an unterminated literal.** The parser accepts a last string without its closing quote, the
  minifier runs past its terminator. `MinifyMeaning.MinifyPreserves` proves that a text the parser accepts can
  be minified, with the same meaning, if and only if it is not such a literal;
  `MinifyMeaning.UnterminatedOverruns` and `MinifyMeaning.LoneQuote` give the failing family and its smallest member.
* **The pointer `print_object` returns on a buffer.** With formatting, the loop for the closing tabs overwrites
  the `i` that held the start of the text, so a nested object returns a pointer to `depth` instead of its start
  (`BufferPrinter.ReturnedAt`). No caller uses the pointer of a nested value, and at depth 0 it is right.
* **`cJSON_PrintBuffered` without an item** loses the buffer it has allocated.
* **`cJSON_AddItemToObject` without memory** adds the item without a name.
* **`cJSON_ReplaceItemInObject` loses a name.** The name the new item had is overwritten and not freed.
  `ListReplace.ReplaceItemInObject` proves that of the blocks of both trees exactly that one is live and in no
  tree afterwards, so something is lost if and only if the member is found and the new item had a name.
* **More than 128 header lines.** A Content-length line behind the 128th line of a head is not seen.
  `HttpSegment.MessageFramed` gives the exact condition under which a message is framed, `HttpSegment.LateField`
  a message that is not.
* **Lengths that are no int.** `atoi` is undefined for a Content-length outside the range of int, and the sum with
  the length of the head overflows for one close to its end. `HttpSegment.SegmentCheck` is defined if and only if
  neither happens, which is so for every message that has arrived completely (`HttpSegment.CompleteInRange`).
* **`mem_pfree_large(pool, NULL)`** takes null for the buffer of an idle header and wipes from address 0.
  `Pool.PfreeLarge` proves that a null argument is undefined if and only if a header is idle; `Pool.PfreeTwice` and
  `MemPool.NullAfterFree` get there. An argument that is not null fails only for the buffers of the next point.
* **Large buffers of 2 GiB and more.** Their size is stored in an int, by which they are wiped.
  `MemPool.OverrunsWhen` says for which sizes that goes past the end of the buffer (below 4 GiB exactly those that
  do not fit an int), and freeing such a buffer or destroying the pool is undefined if and only if it is of such a
  size (`Pool.PfreeLarge`, `Pool.Destroy`).
* **`pow2gt` above 2^30.** Its last addition leaves the range of int (`Pow2.Pow2gtFits`).

## Model

| member | source | states |
|---|---|---|
| Utf8.EncodeWellFormed | common/json/cJSON.c:222-238 | the bytes emitted for a code point are the well-formed UTF-8 character of RFC 3629 section 3 that decodes to it |
| Spelling.LowerFolds | common/json/cJSON.c:39-44 | two bytes are equal under tolower exactly when they are the same or the two cases of one of the 26 letters |
| StringMeaning.HexTable | common/json/cJSON.c:177-188 | a character is read as the hexadecimal digit it is in the table of lower-case or of upper-case digits, and no other character as one |
| StringMeaning.HexFour | common/json/cJSON.c:177-188 | parse_hex4 gives the number whose four digits, highest first, the characters are, in either case; zero as soon as one of them is no digit |
| StringMeaning.UnitRead | common/json/cJSON.c:204-241 | a unit of a literal is read as what RFC 8259 section 7 says it stands for: a character, an escape of its table, a code point as one or two code units; the units the standard does not cover are tolerated as listed |
| StringMeaning.SomeUnit | common/json/cJSON.c:204-241 | every complete literal begins with such a unit, so nothing else is accepted |
| StringMeaning.StringMeans | common/json/cJSON.c:192-249 | parse_string gives exactly the concatenation of what the units stand for, and stops where the literal ends |
| StringMeaning.EscapeInside | common/json/cJSON.c:216-239 | anywhere in a literal the escape of a code point other than zero, in any spelling of its digits, becomes its UTF-8 character |
| StringMeaning.ScalarParsed | common/json/cJSON.c:192-249 | the quoted escape of any code point but zero parses to its UTF-8 character |
| StringMeaning.EscapeCharIs | common/json/cJSON.c:288-303 | printing escapes by the table of RFC 8259 section 7 without its slash, writes other control characters with four lower-case digits, and leaves all other characters alone |
| StringMeaning.EscapeCharStands | common/json/cJSON.c:288-303 | every escape that is printed stands for the character printed |
| StringMeaning.CompleteUnits | common/json/cJSON.c:197-241 | which literals have complete escapes: the ones for which both passes stay in step |
| Utf8.DecodeThenEncode | common/json/cJSON.c:191-238 | every well-formed UTF-8 character is what the encoder emits for its code point, so there is one encoding per code point |
| Utf8.Utf16Injective | common/json/cJSON.c:217-230 | two code points with the same UTF-16 code units (RFC 2781 section 2.2) are equal |
| Utf8.TranscodeMeaning | common/json/cJSON.c:216-239 | an escape or surrogate pair that emits bytes emits exactly the one character its code units encode in UTF-16, never a surrogate; every escape that names a code point other than zero does emit it |
| Utf8.TranscodeNulFree | common/json/cJSON.c:216-239 | no escape emits a NUL, so no escape cuts a string short |
| Utf8.ContinuationBits | common/json/cJSON.c:232-237 | the mask and shift that produce a continuation byte are the remainder and quotient by 64 |
| Utf8.LeadBits | common/json/cJSON.c:191-237 | on 32-bit words, or-ing the first-byte mark onto the remaining bits, masked or not, is adding it |
| Utf8Bits.TrailingByte | common/json/cJSON.c:232-234 | the or and the mask of a continuation byte, which EmitUtf8 computes, give 128 plus the remainder by 64, whatever bits are left above |
| Utf8Bits.LeadByte | common/json/cJSON.c:235-235 | or-ing the mark of the width onto the bits that are left adds it, for all bits that fit beside the mark |
| Utf8Bits.PairPoint | common/json/cJSON.c:226-226 | the masks, the shift and the or of a surrogate pair, which TranscodeAt computes, give the code point of RFC 2781 section 2.2 |
| Bits.TrailingBits | common/json/cJSON.c:232-234 | setting bit 7 and clearing bit 6 and everything above bit 7 leaves the low six bits |
| Bits.OrApart | common/json/cJSON.c:226-235 | or-ing numbers without a common bit adds them |
| Utf8.SurrogateBits | common/json/cJSON.c:226-230 | the masks and shifts that combine a surrogate pair are the arithmetic of RFC 2781 section 2.2 |
| Literal.MeasureIsExact | common/json/cJSON.c:277-305 | the length the first pass of print_string_ptr measures is the length of the escaped text its second pass writes |
| Literal.PlainIsItself | common/json/cJSON.c:256-268 | a text for which the flag is not set is its own escaped form, so the fast path and the escaping path agree |
| Literal.PassesAgree | common/json/cJSON.c:197-245 | for every literal with complete escapes the second pass of parse_string writes at most as many bytes as the first pass counted, and both passes stop at the same place |
| Literal.DecodeNulFree | common/json/cJSON.c:204-245 | a decoded literal holds no NUL, so the C string is the whole text |
| Literal.StringRoundTrip | common/json/cJSON.c:192-305 | parsing the quoted form of any NUL-free byte string gives that string back, and the literal has complete escapes |
| Numerals.NatTextSpells | common/json/cJSON.c:157-162 | a natural number is printed as its decimal numeral without a leading zero |
| Numerals.IntTextSpells | common/json/cJSON.c:157-162 | and an integer with a minus sign when it is negative |
| Numerals.NumberReads | common/json/cJSON.c:96-115 | a number made of a sign, a zero, digits, a fraction and an exponent is read with the value its digits have by their places, shifted by the fraction and the signed exponent, up to its end |
| Numerals.NumberSplits | common/json/cJSON.c:96-115 | every text begins with such a number, so what parse_number reads is determined |
| Numerals.TruncatedIs | common/json/cJSON.c:112-113 | the conversion to int cuts the fraction off, towards zero |
| RoundTrip.ParseStringQuoted | common/json/cJSON.c:192-249 | the parser reads a printed string back and stops right behind its closing quote |
| RoundTrip.ParseWoven | common/json/cJSON.c:320-547 | any tree of null, booleans, 32-bit integers, NUL-free strings, arrays and objects is read back from its tokens with any bytes 1 to 32 before, between and after them |
| RoundTrip.ParseAnyBlanks | common/json/cJSON.c:323-337 | with require_null_terminated such a text parses to exactly the tree and is consumed completely |
| RoundTrip.PrintWoven | common/json/cJSON.c:434-658 | the printed text, formatted or not, at every depth, consists of the tokens of the tree with blanks between them |
| RoundTrip.ParsePrint | common/json/cJSON.c:323-343 | parsing what was printed, formatted or not, gives the tree back and consumes all the text |
| RoundTrip.PrintInjective | common/json/cJSON.c:342-343 | two trees have the same text exactly when they are equal |
| Json.ParseValue | common/json/cJSON.c:357-369 | every successful parse of a value consumes at least one byte, which is why the recursion ends |
| Grammar.ValueIs | common/json/cJSON.c:357-369 | a text that steps outside no literal is parsed to a tree with a rest behind it if and only if the grammar says so: words, numbers, literals, and arrays and objects with blanks, commas and colons where RFC 8259 has them |
| Grammar.ItemsIs | common/json/cJSON.c:407-431 | the same for the elements of an array: no comma may be missing or trail |
| Grammar.PairsIs | common/json/cJSON.c:514-547 | the same for the members of an object |
| Grammar.ParseIs | common/json/cJSON.c:323-337 | with require_null_terminated a text is accepted if and only if it is a value between blanks |
| Layout.PrintIsLaid | common/json/cJSON.c:372-658 | printed text is laid out as stated: formatted, a comma and a blank between elements, every member on a line of its own one tab further in, a tab behind its colon, the closing brace on a line of its own; unformatted, no white space |
| Minify.MinifyInPlace | common/json/cJSON.c:735-750 | on every text the algorithm can finish, the array holds the minified text afterwards; the write cursor never passes the read cursor and nothing behind the text changes |
| Minify.CopyLiteral | common/json/cJSON.c:747-747 | a string literal is copied down unchanged, escaped quotes included |
| Minify.PassComment | common/json/cJSON.c:746-746 | the loop leaves a block comment right behind its end |
| Minify.PassLine | common/json/cJSON.c:745-745 | the loop leaves a line comment at its line end or at the end of the text |
| Minify.MinifiedNulFree | common/json/cJSON.c:735-750 | the minified text has no NUL before its terminator |
| MinifyPieces.PieceIs | common/json/cJSON.c:735-750 | blank, tab, CR and LF are dropped, a line comment up to its line end, a block comment up to the first star and slash behind its slash; literals and all other characters are kept |
| MinifyPieces.StripsMinified | common/json/cJSON.c:735-750 | a text that consists of such pieces can be minified, and what is kept of them is the result |
| MinifyPieces.MinifiedStrips | common/json/cJSON.c:735-750 | every text that can be minified consists of such pieces |
| MinifyMeaning.MinifyPreserves | common/json/cJSON.c:735-750 | a text the parser accepts can be minified if and only if it is not an unterminated literal, and then the minified text parses to the same tree |
| MinifyMeaning.UnterminatedOverruns | common/json/cJSON.c:747-747 | an unterminated literal makes the minifier step over the terminator |
| MinifyMeaning.LoneQuote | common/json/cJSON.c:747-747 | a lone quote is accepted by the parser and cannot be minified |
| MinifyMeaning.LiteralCopied | common/json/cJSON.c:192-249 | the minifier's and the parser's scanners of a string literal agree on where it ends and what it means |
| MinifyMeaning.MinifyPrint | common/json/cJSON.c:735-750 | minifying the text of cJSON_Print, or of any printed tree, gives the text of cJSON_PrintUnformatted |
| CHeap.GrownRemove | common/json/cJSON.c:81-93 | removing the added blocks gives back the store as it was before they were added |
| CHeap.Heap.NewItem | common/json/cJSON.c:73-78 | a new item is zeroed and apart from everything live; a failure changes nothing |
| Ownership.Delete | common/json/cJSON.c:81-93 | deleting a list of items frees exactly the blocks of these items and of everything below them, each once, and reads no freed item |
| Ownership.DeleteItem | common/json/cJSON.c:84-91 | one turn of that loop frees exactly the blocks of one tree |
| Ownership.Strdup | common/json/cJSON.c:49-58 | a copy of the text in a new block and nothing else, or nothing at all |
| Ownership.CopyString | common/json/cJSON.c:718-719 | a string field of the copy gets a new block with the same text; without memory the copy under construction is given back completely |
| Ownership.DuplicateItem | common/json/cJSON.c:708-721 | a copy without children: the same kind, number (as an int and as a double), text and name in new blocks, null links, or the store as before |
| Ownership.Duplicate | common/json/cJSON.c:708-733 | with recurse, a tree with the same value and names in the same order, in new blocks only, null links at its root and a well-formed chain at every level, the source unchanged; without memory, the store exactly as before |
| Ownership.CopyKid | common/json/cJSON.c:724-731 | attaching the copy of the next child makes the copy agree with the source one child further |
| Ownership.LinkChild | common/json/cJSON.c:728-729 | crosswiring a child changes the links of the last child and of the new one, or the child pointer, and nothing else |
| Growing.AppendItem | common/json/cJSON.c:666-666 | suffix_object on the last item of a list and a detached item gives a list with the item at its end, the value of every item unchanged |
| ParserScan.SkipFrom | common/json/cJSON.c:320-320 | the cursor stops at the first byte outside 1 to 32, or at the terminator |
| ParserScan.ReadDigits | common/json/cJSON.c:102-102 | a digit loop computes the decimal value of the digits it passes |
| ParserScan.ReadNumber | common/json/cJSON.c:96-115 | the four loops of parse_number read the number that the grammar of numbers gives and stop where it ends; the int is that number without its fraction whenever it fits |
| ParserScan.MeasureLiteral | common/json/cJSON.c:197-199 | the first pass counts the bytes the buffer is sized by |
| ParserScan.EmitUtf8 | common/json/cJSON.c:232-239 | the fall-through switch that writes backwards leaves exactly the UTF-8 bytes of the code point in the buffer |
| ParserScan.TranscodeAt | common/json/cJSON.c:216-239 | one unicode escape writes the bytes it stands for inside the buffer and consumes the characters it spans |
| ParserScan.DecodeEscape | common/json/cJSON.c:206-241 | one escape, of whatever kind, writes what it stands for and nothing outside the buffer |
| ParserScan.DecodeLiteral | common/json/cJSON.c:204-245 | the second pass fills the buffer of len + 1 bytes with the decoded text and its terminator, and stops where the first pass did |
| Parser.ReadString | common/json/cJSON.c:192-249 | parse_string gives the item a new block with the decoded text, or fails with the item as it was |
| Parser.ReadValue | common/json/cJSON.c:357-369 | a value is built below the item from new blocks only, denotes what the text means, and the cursor is behind it; a failure that is no lack of memory happens exactly when the text is not a value |
| Parser.ReadArray | common/json/cJSON.c:406-431 | the same for arrays: the child chain denotes the elements in order |
| Parser.ReadItem | common/json/cJSON.c:414-425 | one element: a new item at the end of the child chain, filled with the next value |
| Parser.ReadItems | common/json/cJSON.c:418-430 | the loop over commas ends behind the closing bracket with all elements in the chain, or fails leaving a tree that can be deleted |
| Parser.ReadObject | common/json/cJSON.c:514-547 | the same for objects: the children carry the decoded names |
| Parser.ReadKey | common/json/cJSON.c:523-525 | the key is parsed into valuestring and moved to the name of the item |
| Parser.ReadPair | common/json/cJSON.c:523-529 | key, colon and value of one member |
| Parser.ReadMembers | common/json/cJSON.c:531-546 | the loop over members, as ReadItems for elements |
| Parser.ParseWithOpts | common/json/cJSON.c:323-337 | a result is a detached tree in new blocks that denotes what the text means; null leaves the store exactly as before, and without a failed allocation it means that the text does not parse |
| Parser.ParseThenDelete | common/json/cJSON.c:81-93 | parsing and deleting restores the store, whatever the text and whichever allocation fails |
| Writer.IntTextFits | common/json/cJSON.c:156-162 | a 32-bit integer and its terminator fit the 21 characters reserved for it |
| Writer.MeasureText | common/json/cJSON.c:281-281 | the measuring loop counts the escaped text |
| Writer.PutQuoted | common/json/cJSON.c:283-305 | the escaping path writes the quoted text and a terminator in the space it measured plus 3, and nothing before it |
| Writer.PutPlain | common/json/cJSON.c:257-269 | the fast path writes the same quoted text and terminator |
| Writer.PutEscaped | common/json/cJSON.c:288-303 | one character, or its escape, is appended to what was written |
| Compose.PrintNumber | common/json/cJSON.c:147-163 | a new block with the text of the number and nothing else, or nothing at all |
| Compose.PrintString | common/json/cJSON.c:252-307 | a new block with the quoted text and nothing else, or nothing at all |
| Joining.ArrayPrint | common/json/cJSON.c:499-508 | joining the texts of the children as print_array does gives the text of the array |
| Joining.ObjectPrint | common/json/cJSON.c:640-656 | joining names and values as print_object does gives the text of the object |
| Joining.ArrayFits | common/json/cJSON.c:437-486 | the length print_array accumulates covers brackets, separators, elements and terminator, for every child list, depth and format |
| Joining.ObjectFits | common/json/cJSON.c:553-625 | the length print_object accumulates covers braces, names, separators, tabs at every depth, line ends and terminator |
| Compose.ComposeItem | common/json/cJSON.c:501-506 | one element is appended within the allocated length and its block is freed |
| Compose.ComposeArray | common/json/cJSON.c:498-508 | from the collected texts the output is written within its length, and afterwards only the output is left of all blocks |
| Compose.ComposeMember | common/json/cJSON.c:642-651 | one member is appended within the allocated length, and the blocks of its name and value are freed |
| Compose.ComposeObject | common/json/cJSON.c:639-656 | the same for objects |
| Compose.FreePairs | common/json/cJSON.c:631-636 | after a failure every name and value that was printed is freed once |
| Printer.CollectItems | common/json/cJSON.c:473-482 | the loop fills the entries with the texts of the children in order, or stops at the first failure, with the reserved length exact |
| Printer.CollectMembers | common/json/cJSON.c:613-622 | the same for names and values of an object, where the loop goes on after a failure |
| Printer.PrintArray | common/json/cJSON.c:434-511 | a new block with the text of the array and nothing else, or the store as before |
| Printer.PrintObject | common/json/cJSON.c:550-658 | a new block with the text of the object and nothing else, or the store as before |
| Printer.PrintValue | common/json/cJSON.c:372-403 | a new block with the text of the tree at that depth and format, the tree unchanged; a null result is a failed allocation and leaves the store as before |
| Printer.PrintTree | common/json/cJSON.c:342-343 | the same for cJSON_Print and cJSON_PrintUnformatted |
| Pow2.PowerAboveIs | common/json/cJSON.c:117-117 | the size a buffer grows to is the only power of two from the request to twice the request minus one |
| Pow2.Pow2gtIsPowerAbove | common/json/cJSON.c:117-117 | the shifts and ors of pow2gt compute that power for every request up to 2^31 |
| Pow2.Pow2gtFits | common/json/cJSON.c:117-117 | for a positive int the result fits an int if and only if the argument is at most 2^30; above, only the last addition leaves the range |
| Pow2.FoldDoubles | common/json/cJSON.c:117-117 | one shift-and-or doubles the number of ones at the top of the value |
| PrintBuffer.Ensure | common/json/cJSON.c:121-136 | afterwards there is room for the request and every byte written before is kept, and a buffer that grew, to at most 2^30, has the size of the next power of two; without memory the buffer is gone and the store is as before it was allocated |
| PrintBuffer.Update | common/json/cJSON.c:138-144 | the offset lands exactly at the end of the text of the child, wherever in that text the child left it |
| PrintBuffer.Emit | common/json/cJSON.c:453-468 | a piece of text is appended within the ensured room |
| BufferPrinter.BufferString | common/json/cJSON.c:252-307 | print_string_ptr appends the quoted text to the buffer |
| BufferPrinter.BufferElement | common/json/cJSON.c:459-463 | one turn of the element loop appends the text of the child and its separator |
| BufferPrinter.BufferArray | common/json/cJSON.c:450-468 | the array's text is appended, the offset stays before the closing bracket |
| BufferPrinter.BufferMember | common/json/cJSON.c:576-601 | one turn of the member loop appends indentation, name, value and separators |
| BufferPrinter.BufferObject | common/json/cJSON.c:568-607 | the object's text is appended; the returned pointer is the start of the text except for a formatted object with members, where it is `depth` |
| BufferPrinter.BufferValue | common/json/cJSON.c:372-403 | the text appended for a value is the one the other printer gives, everything before it is kept, and a failed allocation leaves the store as before the buffer was allocated |
| BufferPrinter.PrintBuffered | common/json/cJSON.c:345-353 | for every tree, format and initial size the result is a new block with the text of the tree and nothing else, or the store as before; without an item the initial buffer is lost |
| EndToEnd.PrintThenParse | common/json/cJSON.c:323-343 | printing and parsing rebuilds the tree from new blocks, or an allocation failed |
| EndToEnd.PrintBothWays | common/json/cJSON.c:342-353 | the two printers give the same text |
| EndToEnd.DuplicateThenDelete | common/json/cJSON.c:708-733 | copying and deleting restores the store, whichever allocation fails |
| ListEdit.Walk | common/json/cJSON.c:677-677 | the counting loop stops at the item with that index, or at null behind the end; negative counts mean the first item |
| ListEdit.AddItemToArray | common/json/cJSON.c:671-671 | the child list is the old one with the item at its end, every value unchanged, and only the links around the end changed |
| ListEdit.InsertItemInArray | common/json/cJSON.c:684-685 | the child list is the old one with the item at that index, or at the end when the index is past it |
| ListEdit.DetachItemFromArray | common/json/cJSON.c:677-678 | the child list is the old one without the item, whose links are null and whose tree is unchanged; past the end nothing changes |
| ListEdit.InsertLinked | common/json/cJSON.c:684-685 | with the four assignments the list is doubly linked again, null at both ends |
| ListEdit.RemoveLinked | common/json/cJSON.c:677-678 | linking the neighbours to each other keeps the list doubly linked |
| ListEdit.Rechain | common/json/cJSON.c:677-685 | rewiring links so that a new list of children is linked in order leaves every tree below unchanged |
| ListLookup.StrCaseCmp | common/json/cJSON.c:39-44 | zero exactly for a name that is not null and is the text up to the case of its letters; otherwise the difference at the first place where they differ in more |
| ListLookup.GetObjectItem | common/json/cJSON.c:663-663 | the first member whose name equals the text ignoring case, null if there is none |
| ListLookup.CaseIgnored | common/json/cJSON.c:663-663 | a text and the same text in other case find the same member |
| ListLookup.FoundIffNamed | common/json/cJSON.c:663-663 | a member is found under every re-casing of its name unless one before it is, and nothing is found exactly when the text differs from every name in more than case |
| ListLookup.FirstUnique | common/json/cJSON.c:663-680 | there is only one such first member, so lookups and detaches by name agree |
| ListLookup.DetachItemFromObject | common/json/cJSON.c:680-680 | detaches exactly the member GetObjectItem finds, or changes nothing |
| ListLookup.Rename | common/json/cJSON.c:672-672 | the old name is freed and replaced by a copy of the text, or by null without memory; the store afterwards is given exactly |
| ListReplace.AddItemToObject | common/json/cJSON.c:672-672 | the members are the old ones and the item with its new name, or without one when memory is short; the fields and the value of the parent are the old ones up to its members, and apart from the name and the links of the item only the link of the last member and the child pointer change |
| ListReplace.Untouched | common/json/cJSON.c:671-689 | a tree in other blocks than those an edit touched keeps its value and its names |
| ListReplace.AddedLast | common/json/cJSON.c:671-671 | the value of the parent is the old one with the value of the item appended |
| ListReplace.ReplaceItemInArray | common/json/cJSON.c:686-688 | the item at that index is the new one, the old one is freed with everything below it; of what is left only the links of the new item and its neighbours and the child pointer change, and the parent keeps its fields; past the end nothing changes |
| ListReplace.ReplacedValue | common/json/cJSON.c:686-688 | the value of the parent is the old one with that member replaced |
| ListReplace.ReplaceItemInObject | common/json/cJSON.c:689-689 | the first member with that name is replaced by the item under a new name; of both trees exactly the block of the name the item had is live and in no tree afterwards; without such a member nothing changes |
| ListReplace.SubstituteLost | common/json/cJSON.c:689-689 | of all blocks of both trees the old name is the only one lost |
| ListReplace.ReplaceLinked | common/json/cJSON.c:686-688 | the list with the item replaced is doubly linked |
| ListReplace.DeleteItemFromArray | common/json/cJSON.c:679-679 | exactly the blocks of the item at that index and below it are freed; of what is left only the links of its neighbours and the child pointer change, and the parent keeps its fields and the other children |
| ListReplace.DetachThenInsert | common/json/cJSON.c:677-685 | detaching an item and inserting it at the same index restores the store |
| ListOutcome.SameEdit | common/json/cJSON.c:671-689 | two edits of a store that link the same list of children and change nothing but links around it give the same store |
| ListOutcome.InsertsOnce | common/json/cJSON.c:684-685 | what is proved of adding and inserting an item leaves one store only |
| ListOutcome.DetachesOnce | common/json/cJSON.c:677-678 | the same for detaching |
| ListOutcome.DeletesOnce | common/json/cJSON.c:679-679 | the same for deleting |
| ListOutcome.ReplacesOnce | common/json/cJSON.c:686-688 | the same for replacing |
| ListOutcome.NamedOnce | common/json/cJSON.c:672-672 | the same for adding a named member, given where its name was copied to |
| ListOutcome.SubstitutesOnce | common/json/cJSON.c:689-689 | the same for replacing a member by name |
| MemPool.Pool.MemAlloc | memory_pool/mem_pool.c:14-23 | a new aligned block of zeros apart from everything live, or nothing |
| MemPool.Pool.CreateBlock | memory_pool/mem_pool.c:26-42 | such a block with a header whose bump pointer is behind it |
| MemPool.Pool.Create | memory_pool/mem_pool.c:26-42 | the first block makes a pool that satisfies the invariants, and it is the only new block; no pool only without memory |
| MemPool.Pool.PallocSmall | memory_pool/mem_pool.c:71-91 | the first block of the chain with room serves the request, at its bump pointer rounded up, and nothing but that pointer changes; only when no block has room one more is linked behind the last; null only when malloc failed then; the piece is zeroed and behind everything handed out there |
| MemPool.Pool.PallocFresh | memory_pool/mem_pool.c:84-90 | a new block at the end of the chain always has room for the request, which stands behind its header; without memory nothing changes |
| MemPool.Pool.FindIdle | memory_pool/mem_pool.c:97-107 | the first header that is not in use, or the last header when all are |
| MemPool.Pool.UseHeader | memory_pool/mem_pool.c:116-128 | reusing a header gives it a zeroed buffer of its own, its size as an int, and relinks nothing |
| MemPool.Pool.AddHeader | memory_pool/mem_pool.c:110-128 | a new header goes to the end of the list only when all are in use and the buffer was allocated; otherwise the list is unchanged |
| MemPool.Pool.PallocLarge | memory_pool/mem_pool.c:93-128 | a zeroed new buffer; the first idle header gets it and nothing else is allocated, and only when none is idle one more header is served like any small request; the list as long as the peak of simultaneous large allocations; null only when malloc failed |
| MemPool.Pool.Palloc | memory_pool/mem_pool.c:67-129 | which branch serves a request and how, as stated for the branches; null only when malloc failed; every live byte and every invariant is kept; its termination measure says that the request for a header, which always fits a block, is the only recursion and goes one level deep |
| MemPool.Pool.PfreeLarge | memory_pool/mem_pool.c:132-145 | undefined exactly for null while a header is idle and for a buffer it would wipe past its end; otherwise it succeeds exactly for a buffer in use, frees it once, and leaves its header idle in the list |
| MemPool.Pool.PfreeTwice | memory_pool/mem_pool.c:132-145 | after a large buffer was freed, freeing null is undefined |
| MemPool.NullAfterFree | memory_pool/mem_pool.c:132-145 | a run from mem_create_pool on that gets there, for every large size that fits an int, unless malloc fails |
| MemPool.OverrunsWhen | memory_pool/libmem_pool.h:14-18 | wiping by the stored int goes past the end of a buffer of less than 4 GiB exactly when its size does not fit an int, and in general exactly when bit 31 of the size is set |
| MemPool.Pool.Destroy | memory_pool/mem_pool.c:45-64 | undefined exactly when a live large buffer would be wiped past its end; otherwise afterwards exactly the blocks that do not belong to the pool are live, each buffer and block is freed once and no freed header is read |
| MemPool.Pool.FreeChain | memory_pool/mem_pool.c:55-63 | the second loop frees every block of the chain and reads a header only while its block is live |
| MemPool.Pool.ClientWrite | memory_pool/mem_pool.c:67-129 | writes of clients to what they were given keep the invariants, so later pieces are still zero |
| MemPool.RegionsApart | memory_pool/mem_pool.c:67-129 | in every reachable pool block headers, pieces, large headers and large buffers are pairwise disjoint |
| MemPool.PiecesApart | memory_pool/mem_pool.c:73-78 | two pieces handed out never overlap |
| MemPool.BumpPointerInside | memory_pool/mem_pool.c:71-77 | aligned or not, the bump pointer of every block stays inside it, so the cast difference never wraps, and the test for small requests holds exactly for those that fit a new block and are smaller than a page |
| MemPool.AlignStays | memory_pool/mem_pool.h:16-18 | rounding up to a multiple of 8 does not pass an aligned end |
| MemPool.InUseAll | memory_pool/mem_pool.c:97-107 | all headers are in use exactly when as many buffers are live as there are headers |
| MemPool.NewPiece | memory_pool/mem_pool.c:109-114 | the piece allocated for a header is none of the headers of the list |
| HttpSegment.FindHead | proto_dissect/http/http_dissect.c:53-61 | the place of the first blank line, -1 exactly when there is none |
| HttpSegment.NextLine | proto_dissect/http/http_dissect.c:20-28 | one call of strtok finds the next run of bytes other than CR and LF and terminates it in place, disturbing nothing before |
| HttpSegment.Split | proto_dissect/http/http_dissect.c:12-31 | the places hold the first 128 lines of the text, each a C string in the buffer |
| HttpSegment.IsFieldAt | proto_dissect/http/http_dissect.c:84-84 | the comparison ignores case and looks at 15 characters |
| HttpSegment.GetContentLength | proto_dissect/http/http_dissect.c:64-97 | the value of the first Content-length line among the first 128 lines before any NUL, 0 without one, -1 without memory; undefined exactly when that value is no int |
| HttpSegment.SegmentCheck | proto_dissect/http/http_dissect.c:120-131 | the length of the first message, -1 without a complete head, for a negative length or without memory; undefined exactly when an int calculated on the way is out of range |
| HttpSegment.CompleteInRange | proto_dissect/http/http_dissect.c:120-131 | for data that begins with a complete message no int is out of range |
| HttpSegment.PrefixStable | proto_dissect/http/http_dissect.c:120-131 | while data arrives the answer is -1 until the head is complete and the same ever after |
| HttpSegment.SegmentExact | proto_dissect/http/http_dissect.c:120-131 | with any data behind it the answer is the length of a message if and only if the message is as long as its head says |
| HttpSegment.SegmentsOfConcat | proto_dissect/http/http_dissect.c:120-131 | repeated application cuts any concatenation of messages back into these messages, whatever follows |
| HttpSegment.FramingUnique | proto_dissect/http/http_dissect.c:120-131 | a stream is a concatenation of messages in one way only |
| HttpSegment.LinesOfJoin | proto_dissect/http/http_dissect.c:12-31 | splitting header lines joined with line ends gives the lines back |
| HttpSegment.HeadOfMessage | proto_dissect/http/http_dissect.c:53-61 | in a message made of header lines, a blank line and a body, the head search stops at the end of the header lines |
| HttpSegment.FieldReads | proto_dissect/http/http_dissect.c:84-89 | a decimal Content-Length line reads back as its number |
| HttpLength.AtoiSigned | proto_dissect/http/http_dissect.c:89-89 | white space, a sign and digits read as the number with that sign, whatever follows; a sign without digits as 0 |
| HttpLength.AtoiUnsigned | proto_dissect/http/http_dissect.c:89-89 | white space and digits read as the number |
| HttpLength.AtoiNone | proto_dissect/http/http_dissect.c:89-89 | anything else reads as 0 |
| HttpLength.SegmentOfMessage | proto_dissect/http/http_dissect.c:120-131 | the answer for every message of header lines, a blank line and more, from the spelling of its first length line among the first 128, if any |
| HttpLength.NegativeLength | proto_dissect/http/http_dissect.c:120-131 | a negative length in that line makes the answer -1, whatever follows |
| HttpSegment.MessageFramed | proto_dissect/http/http_dissect.c:64-131 | a message whose first Content-length line, in any spelling the code reads, states the length of its body is framed if and only if that line is among the first 128 or the body is empty (RFC 7230 section 3.3.3) |
| HttpSegment.LateField | proto_dissect/http/http_dissect.c:12-31 | 128 lines before a Content-length line of 1 and a body of one byte make a message that is not framed |

## Left out

- Malformed escapes (a backslash before the end of the text, `\u` with a quote or backslash among the next four characters): the C code steps outside its own buffers; `Json.Outcome` has a third case `Wild` for such texts, about which nothing is claimed, and the parser methods exclude them.
- Floating point: a number is the exact decimal that parse_number reads; rounding of fractions and exponents, `pow`, and the `%f` and `%e` formats are not modelled. The printers are modelled for zero and for 32-bit integers, which double arithmetic represents exactly.
- ParserScan.ReadNumber: does not model the rounding of double arithmetic; the conversion of a number that no int holds gives any int.
- Compose.PrintNumber: does not model the formats `%.0f`, `%e` and `%f`; BufferPrinter.BufferNumber likewise.
- Lengths, depths and offsets of the printers are unbounded integers: texts beyond 2^30 bytes, where their `int` variables overflow, are not modelled.
- `cJSON_IsReference` and `cJSON_StringIsConst` items: trees with either flag are outside the ownership proofs, because cJSON_AddItemToObject and cJSON_Duplicate do not treat the flags as cJSON_Delete does.
- `cJSON_AddItemToObjectCS` and the reference functions: they create the flags above. `cJSON_DeleteItemFromObject`: the lookup and the delete, one after the other.
- Aliasing of arguments: the text given to cJSON_AddItemToObject is a value here, so passing the item's own name, which the function frees first, is not expressible.
- `cJSON_InitHooks`, the error pointer `ep`, the Create functions and numeric arrays: they add nothing hard.
- The byte at which a struct of the pool lies is not modelled as memory contents: `struct mem_pool_t` and `struct mem_pool_large_t` are records at their addresses, and the zero bytes of a block are those outside what was handed out.
- Ownership.DeleteItem: the body of the loop of cJSON_Delete is a method of its own; likewise the branches of mem_palloc and the halves of the container printers.
- The field dissection of `http_dissect.c`, the other dissectors, identification, configuration and packet capture: fixed-size copies, flat comparisons and input/output.
