# Verified models of the Titan TTCN-3 compiler

Titan compiles TTCN-3 and ASN.1 modules into C++ and runs the resulting test suites. This project models
the parts of it whose correctness is hardest to see from the code, and proves what they promise:

* `Intervals.dfy`, `CodeGenHelper.dfy`, `Leftover.dfy` - the slicer that cuts the generated C++ of a module into
  files at recorded intervals.
* `JsonNumber.dfy`, `JsonTokenizer.dfy`, `JsonDocument.dfy`, `JsonText.dfy`, `JsonBuffer.dfy`, `JsonString.dfy` -
  the JSON writer and tokenizer: the grammar of numbers and the automaton for it, the text level, what is written
  and what is read, the class with its buffer, and the escaping of strings.
* `Bits.dfy`, `IntVal.dfy`, `IntCell.dfy` - integers that are either native 64-bit numbers or big numbers.
* `Conversions.dfy`, `BitHex.dfy`, `Utf8.dfy` - predefined conversion functions and the UTF-8 decoder.
* `ExpString.dfy`, `DebugAllocator.dfy` - expandable strings and the debug form of the allocator.
* `ErrorContext.dfy` - the chain of error contexts.
* `ComponentType.dfy`, `ModuleCheck.dfy` - compatibility of component types, and the order of module checks.
* `NameMangling.dfy`, `IdentifierTable.dfy`, `IdentifierKeywords.dfy`, `IdentifierRegistry.dfy` - names of
  identifiers in three languages, and their shared, counted records, as values and as an object.
* `JniPipe.dfy` - the pipe to the Java interface of the main controller.
* `RelativePath.dfy` - relative paths between directories.
* `QuadSet.dfy` - sets of universal characters and their complement.
* `Wrappers.dfy`, `Sequences.dfy` - values that may be missing, results that a fatal error may replace, and the
  elements of sequences.

Code that changes objects, buffers or lists step by step is modelled by classes, arrays and loops, and each
such method is proved against a function or predicate on values; code that computes values is modelled by
functions. A fatal error of the compiler, which ends the process, is a result of its own (`Fatal`).
`dafny verify dfyconfig.toml` checks everything.

What the proofs say beyond the comments and headers of the source:

* The pass over left-over code in the slicer is commented as something that should never happen. It happens:
  the loop leaves characters over of ten that are in intervals of one, cut into four slices
  (`LeftoverHappens`). `LeftoverExactly` says for which sizes it cannot, `SliceUnits` when it does.
* Pretty-printed JSON can be read back for every sequence of tokens, not only for balanced ones. Lines are
  indented by at most 80 characters, although the comment says 64, and an empty bracket that is deeper than that
  is never closed for the indentation of what follows (`DeepIsNotClosed`).
* Arithmetic agrees with the integers except where a native `LLONG_MIN` is overlooked. `AddExactly`,
  `MulExactly`, `DivExactly` and `RemExactly` give the exact conditions, `rem` of `LLONG_MIN` by -1 included,
  which is undefined; `mod` has none. `+=` is wrong for some negative operands (`AddWordExactly`), and `>>=`
  rounds native numbers down but big ones toward zero (`ShiftRight`).
* The header of the component type says that every component that is inherited by keywords only has itself
  for a value in the compatibility map. Only the first path to a component counts (`ValueIsKeyExactly`,
  `ShadowedKeyword`). The header also gives `is_compatible` the wrong way around: `a` is compatible with `b`
  when `b` extends `a`.
* A printout of the error contexts shows exactly those with a text that were not on the chain at the previous
  printout, whatever restorers did in between (`ErrorContext.Run`).
* A component that is checked up to its extensions a second time is checked to the end (`RunChecks`).
* An ASN.1 name that leaves nothing for C++ (`"&&"`) can leave the identifier registry with a key that is not
  the name of its record (`EmptyName`). The keys are lost exactly when a C++ name is converted to the ASN.1 name
  of what is entered under the empty C++ name (`FromName`, `KeysExactly`). Only names that begin with two
  ampersands get there (`RegularKeepsKeys`).
* The negation of a character set is its complement exactly when the set is not empty and does not contain
  the character 0 (`NegatedExactly`). Adding a character or an interval keeps the order of the set only in some
  places (`InsertedAscends`, `AddedAscends`), and a character may be there twice (`OrderLost`). Adding an interval
  adds its characters and no others, except that one that closes a gap frees nodes that stay on the list
  (`AddInterval`, `DanglingHappens`).
* The buffer for an escaped message has no room for the terminator exactly when every character is escaped
  (`Stuffer`).
* Leading and trailing underscores or hyphens of identifiers are lost on the way to C++ and back, and a name
  of nothing else is a fatal error (`TtcnRoundTrip`, `AsnRoundTrip`).

## Model

| member | source | states |
|---|---|---|
| `Intervals.SectionBuffer.UpdateInterval` | compiler2/CodeGenHelper.cc:185-236 | the current length becomes a mark exactly when it is beyond the last one; no other mark changes, also when the array grows |
| `Intervals.RecordedAscend` | compiler2/CodeGenHelper.cc:185-236 | over any run the marks ascend and end at the current length |
| `Intervals.RecordedExactly` | compiler2/CodeGenHelper.cc:185-236 | the marks are 0 and the lengths the section had at the updates, no more and no fewer |
| `Intervals.RecordedSection` | compiler2/CodeGenHelper.cc:490-491 | after the update that precedes slicing, a section and its marks are fit to be cut |
| `Intervals.RecordChanges` | compiler2/CodeGenHelper.cc:185-236 | after any run of appends and updates the marks are those of the lengths at the updates, and after an update the section is fit to be cut |
| `CodeGenHelper.FindGoodChunk` | compiler2/CodeGenHelper.cc:271-309 | the first mark that ends a chunk of the wanted size, and the one where the last chunk left off |
| `CodeGenHelper.GetChunkFromPoslist` | compiler2/CodeGenHelper.cc:271-309 | the piece appended to the slice is the text of the section between two cuts, and the position moves to the second one |
| `CodeGenHelper.GetNextChunkPos` | compiler2/CodeGenHelper.cc:253-269 | the slice receives of every section exactly what lies between the base position and the next cut, and globals and literals only at the beginning |
| `CodeGenHelper.CutSlices` | compiler2/CodeGenHelper.cc:495-539 | the slices follow each other without gap, each up to the next recorded cut of at least the chunk size |
| `CodeGenHelper.PutLeftover` | compiler2/CodeGenHelper.cc:540-544 | the last slice is extended to the end of the source |
| `CodeGenHelper.SliceModule` | compiler2/CodeGenHelper.cc:453-563 | for every module, slice count and chunk size: so many slices, cut at recorded places, the last one up to the end |
| `CodeGenHelper.SectionConserved` | compiler2/CodeGenHelper.cc:495-544 | joined in order, the slices give every section exactly once and in full |
| `CodeGenHelper.PrefixConserved` | compiler2/CodeGenHelper.cc:253-263 | global variables and string literals appear exactly once |
| `CodeGenHelper.SlicesAreFull` | compiler2/CodeGenHelper.cc:495-539 | a slice that does not reach the end holds at least the chunk size |
| `Leftover.ReachedUnique` | compiler2/CodeGenHelper.cc:495-539 | how far the slice loop comes is determined by the source, the number of slices and the chunk size |
| `Leftover.LeftoverExactly` | compiler2/CodeGenHelper.cc:540-544 | the left-over pass has nothing to do on every source of a given size if and only if the slices of that size cover it |
| `Leftover.SliceUnits` | compiler2/CodeGenHelper.cc:495-544 | on a source of intervals of one character the slice loop reaches the end if and only if the slices cover it |
| `Leftover.LeftoverHappens` | compiler2/CodeGenHelper.cc:495-544 | a source on which the slice loop leaves it something to do |
| `JsonNumber.AcceptsExactlyNumbers` | common/JSON_Tokenizer.cc:101-172 | the automaton behind the flags accepts exactly the number grammar, a subset of section 6 of RFC 8259 |
| `JsonNumber.FractionOrExponent` | common/JSON_Tokenizer.cc:101-172 | a number has a fraction or an exponent if and only if one of their characters is in it |
| `JsonBuffer.ScanRun` | common/JSON_Tokenizer.cc:101-172 | the loop over the flags accepts a run exactly when it is a number, and tells floats |
| `JsonBuffer.Tokenizer.CheckForNumber` | common/JSON_Tokenizer.cc:101-172 | true exactly for a number in the maximal run of number characters, position at its end, float exactly when a fraction or an exponent follows the integer |
| `JsonBuffer.Tokenizer.CheckForString` | common/JSON_Tokenizer.cc:81-99 | stops at the first quote that is not escaped |
| `JsonBuffer.Tokenizer.CheckForSeparator` | common/JSON_Tokenizer.cc:174-192 | a comma is passed, a colon or bracket is left for the next token, anything else but the end is an error |
| `JsonBuffer.Tokenizer.CheckForLiteral` | common/JSON_Tokenizer.cc:194-210 | the literal followed by a separator, or the position as it was |
| `JsonBuffer.Tokenizer.GetNextToken` | common/JSON_Tokenizer.cc:212-313 | the class reads the same token, length and rest as the function on text |
| `JsonBuffer.Tokenizer.PutSeparator` | common/JSON_Tokenizer.cc:315-325 | the class separates as the function on text does |
| `JsonBuffer.Tokenizer.PutNextToken` | common/JSON_Tokenizer.cc:327-392 | the class writes the same text, depth and previous token as the function on text |
| `JsonTokenizer.WritingGivesLayout` | common/JSON_Tokenizer.cc:315-392 | whatever is written is the tokens with white space between them, in either mode |
| `JsonDocument.WritesDocument` | common/JSON_Tokenizer.cc:315-392 | whatever tokens are put, the text is that of the tokens with the white space that follows from the number of open brackets, and the depth is that number |
| `JsonDocument.WritesDocumentOfCalls` | common/JSON_Tokenizer.cc:327-392 | the same for all calls of the writer |
| `JsonDocument.DepthIsNesting` | common/JSON_Tokenizer.cc:333-356 | the depth is the number of starts less the number of ends in every document that is nested properly and not deeper than 80 |
| `JsonDocument.DeepIsNotClosed` | common/JSON_Tokenizer.cc:350-355 | after an empty bracket inside eighty others the depth is one too many |
| `JsonTokenizer.ReadLayout` | common/JSON_Tokenizer.cc:212-313 | tokens with any white space between them are read as those tokens and then nothing |
| `JsonText.ReadsExactly` | common/JSON_Tokenizer.cc:81-313 | tokens are read without an error if and only if the text consists of them, well-formed, each value and end followed after white space by a comma, a bracket, the end, or a colon if it is no string; before an error if and only if that holds up to a place where no token begins |
| `JsonBuffer.ReadTokens` | common/JSON_Tokenizer.cc:212-313 | the calls of the reader deliver the tokens of which the buffer is a text, or those before the place where none begins |
| `JsonTokenizer.RoundTrip` | common/JSON_Tokenizer.cc:212-392 | every sequence of well-formed tokens, compact or pretty, at any depth, is read back unchanged |
| `JsonTokenizer.RoundTripOfCalls` | common/JSON_Tokenizer.cc:212-392 | the same for all calls of the writer, whose text argument may be ignored |
| `JsonBuffer.WriteTokens` | common/JSON_Tokenizer.cc:315-392 | the calls of the writer leave that document in the buffer |
| `JsonBuffer.ThereAndBack` | common/JSON_Tokenizer.cc:212-392 | whatever calls put into the buffer of one tokenizer, another reads from it, and then the end |
| `JsonString.ConvertToJsonString` | common/JSON_Tokenizer.cc:400-445 | the loop gives every character its escape |
| `JsonString.UnescapeInverts` | common/JSON_Tokenizer.cc:400-445 | unescaping by section 7 of RFC 8259 gives back the original string |
| `JsonString.ConvertedIsWellFormed` | common/JSON_Tokenizer.cc:400-445 | what was converted can be a token |
| `JsonString.StringThroughDocument` | common/JSON_Tokenizer.cc:212-445 | a converted string, written into any document and read back, unescapes to the original |
| `IntVal.EqualExactly` | compiler2/Int.cc:137-167 | order is that of the numbers, in whatever form, and so is equality, except between the two forms of `LLONG_MIN` |
| `IntVal.Neg` | compiler2/Int.cc:169-192 | the negation of the number, well-formed, also of native `LLONG_MIN` |
| `IntVal.AddExactly` | compiler2/Int.cc:194-246 | the sum is right if and only if not both operands are native `LLONG_MIN` |
| `IntVal.Sub` | compiler2/Int.cc:248-298 | the difference is always right and well-formed, and the mutual calls of sum and difference end |
| `IntVal.MulExactly` | compiler2/Int.cc:300-343 | the product is right if and only if no native `LLONG_MIN` is overlooked by the test for overflow |
| `IntVal.DivExactly` | compiler2/Int.cc:345-388 | the quotient truncates toward zero and is well-formed, unless native `LLONG_MIN` is divided by -1, which is undefined |
| `IntVal.RemExactly` | compiler2/PredefFunc.cc:115-118 | the remainder is defined and that of truncating division except for native `LLONG_MIN` by -1 and in one range of dividends of native `LLONG_MIN` |
| `IntVal.TruncRemSign` | compiler2/PredefFunc.cc:115-118 | that remainder is smaller than the divisor and has the sign of the dividend |
| `IntVal.ModExactly` | compiler2/PredefFunc.cc:120-129 | for every non-zero divisor the result is the residue from 0 up to the divisor, congruent to the dividend |
| `IntCell.IntCell.ShiftLeft` | compiler2/Int.cc:471-495 | multiplication by a power of two across the change of form; a negative count is fatal |
| `IntCell.IntCell.ShiftRight` | compiler2/Int.cc:497-516 | division by a power of two across the change of form, native numbers rounded down and big ones toward zero; a negative count and, for native ones, a count of 64 or more are told apart |
| `IntCell.IntCell.AddAssign` | compiler2/Int.cc:518-549 | the value of the function on values, for all numbers in either form and all native operands |
| `IntCell.AddWordExactly` | compiler2/Int.cc:518-549 | the result is well-formed, and it is the sum if and only if the operands are not among some with a negative one |
| `IntCell.MaskIsMod` | compiler2/Int.cc:390-407 | the bitwise conjunction with ones is the remainder by a power of two, of a native number itself and of the absolute value of a big one |
| `Conversions.NumeralInjective` | compiler2/PredefFunc.cc:288-371 | numerals of one length that stand for one number are the same |
| `Conversions.Bit2Int` | compiler2/PredefFunc.cc:288-300 | the number of a bitstring of any length |
| `Conversions.Hex2Int` | compiler2/PredefFunc.cc:302-315 | the number of a hexstring of any length; fatal exactly for other characters |
| `Conversions.Int2Bit` | compiler2/PredefFunc.cc:326-345 | a bitstring of the given length with that value; fatal exactly when there is none |
| `Conversions.Int2Hex` | compiler2/PredefFunc.cc:350-371 | a hexstring of the given length with that value; fatal exactly when there is none |
| `Conversions.BitRoundTrip` | compiler2/PredefFunc.cc:288-345 | to an integer and back is the bitstring itself, for every length |
| `Conversions.HexRoundTrip` | compiler2/PredefFunc.cc:302-371 | to an integer and back is the hexstring in upper case, for every length |
| `BitHex.Bit2Hex` | compiler2/PredefFunc.cc:418-443 | the digits of the groups of four bits, zeros added on the left |
| `BitHex.Hex2Bit` | compiler2/PredefFunc.cc:505-572 | the bits of the digits; fatal exactly for other characters |
| `BitHex.AsnBit2Oct` | compiler2/PredefFunc.cc:472-503 | the digits of the groups of four bits, zeros added on the right to whole octets; fatal exactly for other characters |
| `BitHex.Bit2Oct` | compiler2/PredefFunc.cc:463-470 | the hexstring of the bits, with a zero in front if that is needed for whole octets |
| `BitHex.HexThereAndBack` | compiler2/PredefFunc.cc:418-572 | from a bitstring to a hexstring and back adds zeros on the left |
| `BitHex.AsnThereAndBack` | compiler2/PredefFunc.cc:472-572 | from a bitstring to ASN.1 octets and back adds zeros on the right |
| `BitHex.ValueKept` | compiler2/PredefFunc.cc:418-470 | conversion to a hexstring or octetstring keeps the number |
| `Utf8.FillContinuing` | compiler2/PredefFunc.cc:957-992 | an error exactly when a continuing octet is missing or wrong; otherwise the low six bits of each |
| `Utf8.DecodeMultiple` | compiler2/PredefFunc.cc:1029-1123 | each branch decodes exactly the characters that are complete, well-formed and not overlong |
| `Utf8.DecodeUtf8` | compiler2/PredefFunc.cc:994-1135 | an error is reported exactly when what follows the byte order mark cannot be decoded; otherwise the text is the decoded one |
| `Utf8.DecodeInvertsEncode` | compiler2/PredefFunc.cc:1011-1129 | decoding the encoding (section 2 of RFC 2279) of any code points below 2^31 gives them back |
| `Utf8.EncodeInvertsDecode` | compiler2/PredefFunc.cc:1011-1129 | what can be decoded is the shortest encoding of the result |
| `Utf8.DecodesEncodedText` | compiler2/PredefFunc.cc:994-1135 | every encoded text is decoded to itself, minus a leading U+FEFF |
| `Utf8.DecodedReencodes` | compiler2/PredefFunc.cc:994-1135 | input decoded without an error is the encoding of the result after its byte order mark |
| `Utf8.IsUtf8` | compiler2/PredefFunc.cc:815-841 | every octet is ASCII or leads as many continuing octets as it has leading ones |
| `Utf8.ShapedExactly` | compiler2/PredefFunc.cc:815-841 | by the values of octets: what is classified as UTF-8 is first octets, below 0x80 or from 0xC0 on, each followed by as many from 0x80 to 0xBF as its range needs, up to seven |
| `Utf8.DecodedIsUtf8` | compiler2/PredefFunc.cc:815-841 | input decoded without an error is classified as UTF-8 |
| `ExpString.FastStrlen` | common/memory.c:610-626 | on every padded buffer the binary search finds the linear length and the least buffer size for it |
| `ExpString.RoundupSize` | common/memory.c:636-641 | the least power of two above the length |
| `ExpString.RoundupUnique` | common/memory.c:636-641 | there is only one such power of two |
| `ExpString.CopyStrn` | common/memory.c:824-834 | the characters followed by zeros, in the least buffer |
| `ExpString.CopyStr` | common/memory.c:802-813 | a padded buffer of least size with the text |
| `ExpString.PutStr` | common/memory.c:838-858 | the text is appended and the buffer stays padded and of least size |
| `ExpString.PutStrn` | common/memory.c:862-881 | the characters are appended; the buffer stays padded if and only if no zero is among them, and then also of least size |
| `ExpString.PutC` | common/memory.c:885-908 | the character is appended unless it is a zero, and the buffer stays padded and of least size |
| `ExpString.TruncStr` | common/memory.c:912-929 | the text is cut to the new length if it is longer, and the buffer stays padded and of least size |
| `ExpString.StrLen` | common/memory.c:931-937 | the length of the text, 0 for no buffer |
| `ExpString.Run` | common/memory.c:802-937 | after any run of copies, appends and truncations the text and its length are those of the same operations on a plain string, and the buffer is padded and of least size |
| `DebugAllocator.Allocator.AddToList` | common/memory.c:112-119 | the block is appended to a consistent doubly linked list |
| `DebugAllocator.Allocator.RemoveFromList` | common/memory.c:121-129 | the block is taken out of a consistent doubly linked list, wherever it is |
| `DebugAllocator.Allocator.Malloc` | common/memory.c:388-420 | one more live block, counted and summed; nothing for no bytes |
| `DebugAllocator.Allocator.Realloc` | common/memory.c:429-470 | the block moves to the end of the list with its new size, whether or not it moves in memory; without a pointer or a size it is an allocation or a release |
| `DebugAllocator.Allocator.Free` | common/memory.c:478-504 | the block leaves the list, the sum and the count |
| `DebugAllocator.Run` | common/memory.c:388-504 | after any run on live pointers the list holds exactly the live blocks, and the counters are the sum of their sizes, their number and the largest sum there ever was |
| `ErrorContext.Chain.Push` | compiler2/CompilerError.cc:268-277 | the context is appended to the chain |
| `ErrorContext.Chain.Pop` | compiler2/CompilerError.cc:313-322 | the last context leaves the chain; fatal exactly for another one |
| `ErrorContext.Chain.Save` | compiler2/CompilerError.cc:239-266 | the chain becomes its first elements, as many as are kept, and the restorer holds the others as a chain of their own |
| `ErrorContext.Chain.Restore` | compiler2/CompilerError.cc:296-312 | the chain becomes the kept and the saved elements again; the saved ones are to be printed again exactly when something was printed in between |
| `ErrorContext.Chain.Print` | compiler2/CompilerError.cc:219-237 | the contexts that have a text and were not in the last printout are output in order, each with its level, and those of the chain become the last printout |
| `ErrorContext.ShownExactly` | compiler2/CompilerError.cc:219-237 | a printout has a line for exactly the contexts with a text that were not shown before, one level below those before it, and the message is below all of them |
| `ErrorContext.OnlyNewIsShown` | compiler2/CompilerError.cc:219-237 | of a chain that grew since the last printout only what was added is shown, and nothing of one that did not |
| `ErrorContext.Run` | compiler2/CompilerError.cc:219-322 | in every well-nested run, restorers included, the chain is as before afterwards, and each printout shows the contexts that are nested at that point without those that were on the chain at the previous printout |
| `ErrorContext.RunKeepsLinks` | compiler2/CompilerError.cc:239-322 | and so are head, tail and every link |
| `ComponentType.AddParent` | compiler2/CompType.cc:215-228 | what one parent adds to the map: it and its map, unless the key is there |
| `ComponentType.ChkExtends` | compiler2/CompType.cc:231-246 | on any graph without cycles the map is complete afterwards, and all others stay complete or not begun |
| `ComponentType.ChkDefsUniq` | compiler2/CompType.cc:356-361 | the definitions of everything it extends have been looked at |
| `ComponentType.RunChecks` | compiler2/CompType.cc:429-464 | the state that a check leaves, for every state and required state, and that everything it extends has had its definitions looked at when its own are |
| `ComponentType.Chk` | compiler2/CompType.cc:429-464 | every component that was checked this far has its complete map, nothing is left being checked, and no state goes back |
| `ComponentType.KeysAreAncestors` | compiler2/CompType.cc:211-229 | the keys of the map are exactly the proper ancestors |
| `ComponentType.ValuesAreByKeywords` | compiler2/CompType.cc:211-229 | a value that is not missing equals its key and is reached by keywords only |
| `ComponentType.ValueIsKeyExactly` | compiler2/CompType.hh:71-74 | the value is the key if and only if the first path to it consists of keywords only |
| `ComponentType.ShadowedKeyword` | compiler2/CompType.hh:71-74 | a component reached by a keyword whose value is missing |
| `ComponentType.IsCompatible` | compiler2/CompType.cc:76-84 | true exactly for the component itself, an empty one and an ancestor of the other |
| `ComponentType.CompatibleIsPreorder` | compiler2/CompType.cc:76-84 | compatibility is reflexive and transitive |
| `ModuleCheck.Checker.ChkRecursive` | compiler2/AST.cc:1430-1444 | ends on every graph; a module is checked once, after all visible ones that do not lead back to it |
| `ModuleCheck.ChkModules` | compiler2/AST.cc:158-178 | every module is checked exactly once, except ASN.1 modules when top-level PDUs are given, in such an order |
| `ModuleCheck.AcyclicOrder` | compiler2/AST.cc:1430-1444 | without circular imports a module is checked after all others that are visible from it |
| `NameMangling.TtcnToName` | compiler2/Identifier.cc:189-198 | every underscore doubled |
| `NameMangling.NameToTtcn` | compiler2/Identifier.cc:200-218 | leading and trailing underscores removed and pairs collapsed; fatal exactly when nothing is left |
| `NameMangling.AsnToName` | compiler2/Identifier.cc:135-163 | root, hidden parts, hyphens, dots and ampersands replaced; fatal exactly for the empty name |
| `NameMangling.AsnCharacters` | compiler2/Identifier.cc:135-163 | without a hidden part the root is spelled out and every character is replaced as it is for itself |
| `NameMangling.AsnHiddenPart` | compiler2/Identifier.cc:140-146 | a hidden part makes no difference to the C++ name |
| `NameMangling.NameToAsn` | compiler2/Identifier.cc:165-187 | leading and trailing underscores removed, pairs and then single ones replaced by hyphens; fatal exactly when nothing is left |
| `NameMangling.TtcnRoundTrip` | compiler2/Identifier.cc:189-218 | to C++ and back is the name itself if and only if it neither begins nor ends with an underscore |
| `NameMangling.TtcnToNameInjective` | compiler2/Identifier.cc:189-198 | different names have different C++ names |
| `NameMangling.AsnRoundTrip` | compiler2/Identifier.cc:135-187 | to C++ and back is the name itself if and only if it neither begins nor ends with a hyphen |
| `IdentifierRegistry.Registry.DeleteThis` | compiler2/Identifier.cc:248-253 | one reference less, and the record is freed with the last one |
| `IdentifierRegistry.Registry.AddKeyword` | compiler2/Identifier.cc:901-976 | a keyword is entered under those of its names that are free, all other entries stay, and it is counted for its entries only; its record has its names, and an invalid one in a language where it has none |
| `IdentifierKeywords.NextKeeps` | compiler2/Identifier.cc:1022-1314 | no operation but the last destruction takes an entry away or changes a name that is known |
| `IdentifierKeywords.AfterHolds` | compiler2/Identifier.cc:901-1314 | after every run, while there is an instance, every keyword is entered with its names, and with an invalid one where it has none |
| `IdentifierKeywords.KeywordsClash` | compiler2/Identifier.cc:1022-1071 | after every run a word with the C++ name of a keyword that has no name in the language clashes if and only if it is not registered, no field and not "<invalid>" |
| `IdentifierRegistry.CheckReserved` | compiler2/Identifier.cc:1022-1288 | after every run such a word that is not registered is reserved, and creating an identifier reports a clash |
| `IdentifierRegistry.Registry.Instance` | compiler2/Identifier.cc:995-1002 | there is an instance, with exactly the keys of all keywords if it is a new one, and counts and keys stay right |
| `IdentifierRegistry.Registry.DeleteInstance` | compiler2/Identifier.cc:888-899 | the last entry frees the last record: nothing is left |
| `IdentifierRegistry.Registry.IsReserved` | compiler2/Identifier.cc:1022-1071 | a word is reserved exactly when its C++ name has another name in that language; otherwise the name may be learned, and nothing else changes |
| `IdentifierRegistry.Registry.ToName` | compiler2/Identifier.cc:1073-1149 | keeps counts and keys; the registered name or the converted one, which is learned where it was missing |
| `IdentifierRegistry.Registry.FromName` | compiler2/Identifier.cc:1099-1175 | keeps the counts; keeps the keys if and only if it does not give what is entered under the empty C++ name another one; the registered name or the converted one, which is learned where it was missing |
| `IdentifierRegistry.Registry.GetName` | compiler2/Identifier.cc:220-230 | the name in a language, remembered but not entered |
| `IdentifierRegistry.Registry.Create` | compiler2/Identifier.cc:1177-1288 | a new handle to the registered record, or to one with the right C++ name; exactly which entries there are afterwards; a clash is reported exactly when the record has another name |
| `IdentifierRegistry.Registry.Copy` | compiler2/Identifier.cc:1290-1295 | one more handle to the same record |
| `IdentifierRegistry.Registry.Destroy` | compiler2/Identifier.cc:1297-1303 | the handle is gone; the last one takes all records and entries with it |
| `IdentifierRegistry.Registry.Assign` | compiler2/Identifier.cc:1305-1314 | the handle refers to the other record, also when both were the same |
| `IdentifierRegistry.Run` | compiler2/Identifier.cc:1022-1314 | every run holds what the same run on values leaves and is fatal exactly when that is; each record is counted once for each handle and entry and none that is referred to is freed; the keys are names if and only if none was lost on the way |
| `IdentifierTable.NextGood` | compiler2/Identifier.cc:1022-1314 | every operation keeps the counts and all keys but the empty one, and which operations lose that one |
| `IdentifierTable.KeysExactly` | compiler2/Identifier.cc:1022-1314 | after every run the keys are the names if and only if no conversion has given what is entered under the empty C++ name another name since the last identifier was destroyed |
| `IdentifierTable.RegularKeepsKeys` | compiler2/Identifier.cc:1022-1314 | without names that begin with two ampersands all keys are names and no C++ name is empty |
| `IdentifierTable.LearnGood` | compiler2/Identifier.cc:1079-1083 | learning a name keeps the counts, and loses the keys exactly when it is a C++ name for what is entered under the empty one |
| `IdentifierRegistry.EmptyName` | compiler2/Identifier.cc:1073-1288 | for every table of keywords that does not use its names, creating an identifier and converting it there and back leaves a key that is not the name of its record |
| `JniPipe.Itoa` | JNI/jnimw.cc:118-128 | the decimal digits of the number and the terminator, for which there must be room |
| `JniPipe.CreatePacketHeader` | JNI/jnimw.cc:130-139 | the letter and five digits of the length |
| `JniPipe.HeaderRoundTrip` | JNI/jnimw.cc:130-139 | the reader computes the length that the writer put there |
| `JniPipe.Stuffer` | JNI/jnimw.cc:141-157 | bars and backslashes escaped; what is allocated has room for the terminator if and only if some character is neither |
| `JniPipe.FieldsOfJoined` | JNI/jnimw.cc:141-157 | whatever is in them, escaped fields that are joined by bars can be told apart again |
| `JniPipe.BodiesReadBack` | JNI/jnimw.cc:179-218 | whatever is in the messages, the fields of errors and notifications can be told apart again |
| `JniPipe.ParsedDigits` | JNI/jnimw.cc:130-168 | the two digits of a status are those of the state, and the five of any other packet those of its length |
| `JniPipe.Jnimw.StatusChange` | JNI/jnimw.cc:162-174 | the letter, two digits of the state and three zeros are written unless a message with this state is pending already |
| `JniPipe.Jnimw.Error` | JNI/jnimw.cc:179-194 | one packet more, and the size is that of all packets; whether the buffer has room |
| `JniPipe.Jnimw.Notify` | JNI/jnimw.cc:199-218 | one packet more, and the size is that of all packets; whether the buffers have room |
| `JniPipe.Jnimw.ReadPipe` | JNI/jnimw.cc:247-282 | exactly the oldest packet is taken, and the size is that of the others |
| `JniPipe.AfterIsSound` | JNI/jnimw.cc:162-282 | after every sequence of steps the packets read and waiting are those written, in order, and a pending status message is waiting and the last one has the last state |
| `JniPipe.AfterTells` | JNI/jnimw.cc:162-282 | in every run the packets say what was told, and a status is pending if and only if its state was told last and no state has been heard since |
| `JniPipe.Run` | JNI/jnimw.cc:162-291 | every run of the pipe of characters is one of the queue of packets, and what a reader makes of the packets, kinds, numbers and texts, is what was told, in order, a state only if it has not just been told |
| `RelativePath.FindCommon` | common/path.c:203-217 | where the paths part: the same components before, different ones after, and no index past an end |
| `RelativePath.WayLeads` | common/path.c:187-245 | up to where two paths part and down again leads from the one to the other, and is a dot exactly when they are the same |
| `RelativePath.GetRelativeDir` | common/path.c:187-245 | for all canonical paths the result is the components of that way joined by single slashes, without one at either end; it leads from the base to the directory, and it is a dot exactly when they are equal |
| `QuadSet.Set.AddQuad` | common/Quadruple.cc:381-420 | where a quadruple goes, that nothing else changes, and that it is the only new element |
| `QuadSet.InsertedAscends` | common/Quadruple.cc:381-420 | an ordered list stays in order if and only if the new quadruple is not below the last node, or above all but the last one of at least two |
| `QuadSet.OrderLost` | common/Quadruple.cc:381-420 | lists whose order is lost, one by a quadruple that is there twice |
| `QuadSet.Set.AddInterval` | common/Quadruple.cc:422-477 | for every list and interval: fails exactly when the merged interval meets a later node; otherwise the elements are those of the list and those of the interval, and where it goes |
| `QuadSet.Set.JoinIfPossible` | common/Quadruple.cc:609-635 | nothing is freed, and nothing changes, exactly when all later nodes are apart from the merged one |
| `QuadSet.AddedHas` | common/Quadruple.cc:422-477 | adding an interval adds its elements and no others |
| `QuadSet.AddedAscends` | common/Quadruple.cc:422-477 | an ordered list stays in order if and only if a merged interval holds no interval before it, or one that is not merged is there already or has its place at the end |
| `QuadSet.DanglingHappens` | common/Quadruple.cc:609-635 | a list and an interval for which a node is freed |
| `QuadSet.Set.Join` | common/Quadruple.cc:479-492 | the union of both sets; fails exactly when some interval frees a node of the list reached by then |
| `QuadSet.Set.HasQuad` | common/Quadruple.cc:498-513 | true exactly when a node contains it |
| `QuadSet.Set.DoNegate` | common/Quadruple.cc:568-607 | the list becomes the list of its gaps |
| `QuadSet.GapsExactly` | common/Quadruple.cc:568-607 | up to the end of every node the gaps are the complement |
| `QuadSet.NegatedExactly` | common/Quadruple.cc:568-607 | the result ascends, and is the complement over all 32-bit values if and only if the list is not empty and does not contain 0; it is everything for a list that contains 0 |

## Left out

- SliceModule: file names and their clashes are not modelled, nor the order of modules and the division of the whole size by the number of slices; the chunk size is a parameter.
- ShiftLeft: big numbers are mathematical integers with a number of bits, as are all results of the big number library.
- ShiftRight: a native number with a count of 64 or more, undefined in C, has an outcome of its own and no value; shifts of negative native numbers are arithmetic.
- AddAssign: native overflow, undefined in C, is modelled as wrapping around; `AddWordExactly` counts it as wrong.
- Int2Bit: the limit on the length of strings, which no length of 64 bits can exceed, is not modelled.
- DecodeUtf8: a string of one or two octets that begins like a byte order mark is taken to have none; what the source reads after its end is not modelled. After an error the text is unspecified.
- Encoding on the wire in UTF-16 and UTF-32, and the other predefined functions (regular expressions, floating point), are left out.
- CopyStr: the text is what comes before the first zero. Formatted printing into expandable strings is left out, and so is overlap of the appended text with the buffer.
- Malloc: the contents of blocks, their guards, the place of the call and a system without memory are not modelled; counters do not wrap around.
- Print: a text that is printed is reduced to its location and level. Contexts get their text when they are constructed; `set_message` is left out, and so is printing without contexts.
- ChkExtends: circular extensions, which are reported as errors, are left out, and so are references to components that cannot be resolved.
- Chk: is not called for a component that is being checked, which without circular extensions only definitions inside components could bring about.
- ChkDefsUniq: only the checks of other components; the definitions inside components are left out, with whatever their own checks start.
- ChkRecursive: what the check of a module does is left out.
- AsnRoundTrip: names without `_`, `@`, `.` and `&`, which covers the references and identifiers of sections 12.2 and 12.3 of ITU-T X.680.
- IsReserved: for C++ names, where nothing changes, it is left out.
- Create: the three maps are one map with the language in its keys, and records live in a map from addresses; the messages about clashes are reduced to a flag. The table of keywords is a parameter.
- IdentifierRegistry.Run: identifiers are numbered in the order in which they are made; operations on identifiers that do not exist are no part of a program and have no effect.
- CreatePacketHeader: bodies of 100000 characters and more do not fit into a header and are excluded.
- Error: what a terminator outside the buffer overwrites is not modelled; the same holds for Notify.
- JniPipe.Run: the steps of the pipe exclude each other; writes of `error` and `notify` that the operating system would split are left out, and so are failing system calls.
- GetRelativeDir: paths are canonical; making them so needs the file system.
- AddInterval: the list after a node was freed that stays on it is not specified.
- Join: of a set with itself is excluded.
- The rest of the repository: parsers, semantic checks of types and values, generators of C++ text, the main controller, logging and configuration.
