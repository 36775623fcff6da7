# Verified model of xmrMiner's self-contained algorithms

xmrMiner is a CUDA miner with a few C and C++ parts that stand on their own: a hash table and a JSON library (Jansson),
SHA-256 and the CryptoNight hash functions, AES, long-option parsing, multi-limb integers and the choice of the donation
pool. Most of these parts have a fast or pointer-based form that must agree with a simple one. This project models the
fast forms step by step, on arrays, linked nodes and objects where the program updates its state in place, and proves
them against plain definitions; the laws the program relies on are then proved about those definitions.

How the modules fit together:

| part | modules |
|---|---|
| machine words, limbs, powers of two | `MachineWords`, `Limbs`, `Powers`, `Options` |
| hash table | `BucketWindows` (windows into one list, on numbers only), `HashTables` (nodes, buckets, whole runs) |
| SHA-256d and the mining scan | `Sha256`, `Sha2`, `MiningKernel`, `ScanHash`; `Fips180`, `Fips180Constants` (the standard) |
| JSON | `Utf8`, `JsonStrings`, `JsonLexer` (stream), `JsonTokens` (tokens as functions), `JsonScanner` (lexer), `JsonParser`, `JsonDump`, `JsonRoundTrip`, `JsonParsed` (what the parser can return); `JsonGrammar` (RFC 8259), `JsonExact` (the parser is the grammar), `JsonLayout` (the printed text, flag by flag) |
| AES | `AesTables`, `AesField`, `Aes`, `OaesBlocks`, `OaesLib`, `OaesMessages`, `Aesb`; `Fips197` (the standard), `OaesFormat` (messages, byte by byte) |
| option parsing | `PermuteArgs`, `GetoptLong` |
| big integers | `Shifts`, `HexText`, `Uint256` |
| CryptoNight | `Keccak`, `CnKeccak`, `CryptoNight`, `SlowHash` (the whole function), `Blake`, `Groestl`, `Skein`; `Fips202`, `Cns008`, `BigEndian`, `BlakeSubmission`, `GroestlSubmission`, `SkeinSubmission` (the standards) |
| donation pool | `Donation` |

The fast forms are proved against definitions that follow the program's own structure, and these definitions against
others that share nothing with it: the text of the published standard, written with its own operations (`Fips180`,
`Fips197`, `Fips202`, `Cns008`, the three submissions, RFC 8259 in `JsonGrammar`), with tables computed instead of listed
(round constants from roots of primes or from a shift register, the substitution table from inverses in the field). For
JSON both directions are exact: the parser returns a value if and only if the text denotes it, and the printer puts out
a text if and only if the flags describe it, for objects that have their keys and serial numbers once, as the hash table
keeps them.

Conventions. Bytes and words are ranges of numbers with wrap-around written out, except in the AES and Keccak modules,
where they are bit vectors. A `hide` statement at the head of a proof keeps the definitions it names out of that proof.
Ghost parameters say which text or message a state stands for. Allocation never fails, and what is read from clocks,
random sources, flags of other threads or the network is a parameter.

What turned out false or limited, each with its exact condition in the contract named:

- `hashtable_set` grows past the end of its table of primes when it is called on a table that holds as many pairs as the
  largest prime (1610612741). `HashTables.HashTable.GrowthFits` proves that growth finds a prime if and only if the map is
  smaller than that; `HashTables.Run` covers exactly the runs in which every call of set meets this, and
  `HashTables.FullTableReached` gives such a run that ends with a table for which the next call of set does not.
- `scanhash_sha256d` counts the nonces it tried in 32 bits, so it reports 0 when it has tried all 2^32. By
  `ScanHash.CountExactly` its count is exact if and only if the range asked for leaves a nonce out, or some nonce before
  the last one meets the target or is followed by a restart; `ScanHash.WholeRangeCountsZero` gives the inputs that fail.
- `oaes_decrypt` reads the byte before its output when a message marked as padded has no text. `OaesMessages.PadTestOutside`
  proves that its padding test reads outside the text if and only if a message of 32 bytes has an acceptable header that
  marks padding; `OaesMessages.PaddedEmptyMessage` gives such messages, and `OaesMessages.SealedNotPaddedEmpty` shows that
  `oaes_encrypt` never writes one. `Context.Decrypt` covers every other message. A cipher text shorter than header and IV
  makes the reported length wrap, which the contract states.
- `keccak` ignores the last bytes of every block when the rate is not a multiple of 8; `Keccak.BlocksDistinct` proves that
  blocks keep apart if and only if it is one, that is, if the digest size is a multiple of 4. All sizes in use are.
  `Keccak.ByteLost` and `Keccak.MessagesCollide` prove that otherwise such bytes do not matter for the hash of any message,
  so that different messages have the same hash.
- `blake256_update` handles a piece of a message after a partly filled buffer only if the piece is short, or its length
  modulo 64 fills the buffer; an empty piece empties the buffer. `Blake.FitsExactly` proves that this is the exact
  condition. The calls the program makes all meet it.
- `do_dump` does not look at whether an object's key could be printed: `JsonDump.DumpSucceeds` proves that it succeeds
  exactly when every string *value* is UTF-8. `JsonParsed.ReadsBackExactly` proves that a value with clean string values is
  then read back equal if and only if all its keys are UTF-8 without NUL; `JsonDump.BadKeyPrinted` and
  `JsonParsed.BadKeyNotParsed` give a key that is printed, with success, as text that cannot be parsed.
- `dump_string` loses the characters it is holding back when it meets bytes that are not UTF-8. `JsonStrings.LostExactly`
  proves what is printed of any such string, and that all characters in front of the bad bytes are printed if and only if
  there are none or the last of them needs an escape; `JsonStrings.LetterLost` gives a string of which nothing is printed.
- The donation ratio follows its target only for a weight of at most 1; `Donation.OverweightLags` shows that it falls
  behind without bound for any larger weight, which a pool difficulty ratio can produce.

## Model

| member | source | states |
|---|---|---|
| BucketWindows.InsertKeepsWindows | compat/jansson/hashtable.c:62-75 | inserting an element at the start of a bucket's window, or anywhere for an empty bucket, keeps the windows of all buckets contiguous, disjoint and covering |
| BucketWindows.RemoveKeepsWindows | compat/jansson/hashtable.c:130-139 | removing any element keeps every window, with the bounds of the windows behind it moved by one |
| HashTables.ComputeHash | compat/jansson/hashtable.c:21-35 | the loop computes the hash of the key's signed characters modulo the width of size_t |
| HashTables.HashIsPolynomial | compat/jansson/hashtable.c:21-35 | that hash is the value, modulo 2^64, of the polynomial in 33 that starts with 5381 and has the key's signed characters as coefficients |
| HashTables.PrimesIncrease | compat/jansson/hashtable.c:77-82 | the table of bucket counts has 29 entries from 5 to 1610612741, each larger than the one before, so growth makes room |
| HashTables.ListInsert | compat/jansson/hashtable.c:43-49 | the four pointer updates put the node before the given one in the circular list and leave every other link alone |
| HashTables.ListRemove | compat/jansson/hashtable.c:51-55 | the two pointer updates take the node out of the circular list |
| HashTables.HashTable.FindPair | compat/jansson/hashtable.c:90-113 | the walk from a bucket's first to its last finds the pair with the key if the bucket has one, and null otherwise |
| HashTables.HashTable.InsertToBucket | compat/jansson/hashtable.c:62-75 | an inserted pair joins its bucket's window, at its front or at the list's end, and every window stays exact |
| HashTables.HashTable.DoDel | compat/jansson/hashtable.c:116-146 | the pair leaves list and bucket in all four first/last cases, and the map loses exactly its key; -1 if there was none |
| HashTables.HashTable.DoRehash | compat/jansson/hashtable.c:162-194 | relinking every pair into the next larger table, in place and over the reused sentinel, ends, keeps every pair object and leaves the map unchanged |
| HashTables.PointIsFirst | compat/jansson/hashtable.c:62-75 | a bucket's window starts at the first pair of the list whose hash selects that bucket, so the place of a new pair depends only on the order of the keys |
| HashTables.KeyTaken | compat/jansson/hashtable.c:116-146 | taking a pair out removes its key, at its first and only place, from the order of the keys |
| HashTables.HashTable.Set | compat/jansson/hashtable.c:224-267 | the table stays well formed and its map is the old one with the key bound to the value; pairs already there stay the same objects; it grows exactly when it is full, and the order of iteration is the old one, placed anew if it grew, with a new key in front of its bucket |
| HashTables.HashTable.Get | compat/jansson/hashtable.c:269-283 | exactly what the map says |
| HashTables.HashTable.Del | compat/jansson/hashtable.c:285-289 | the map loses the key, and the result tells whether it was there |
| HashTables.HashTable.Clear | compat/jansson/hashtable.c:148-160 | the map becomes empty and every bucket window with it; the number of buckets stays |
| HashTables.HashTable.IterNext | compat/jansson/hashtable.c:307-334 | iteration goes from pair to pair of the list and ends at the sentinel |
| HashTables.HashTable.Keys | compat/jansson/hashtable.c:307-334 | a full iteration gives each key of the map once and nothing else, in the order of the list |
| HashTables.HashTable.SizeIsCount | compat/jansson/hashtable.c:224-267 | size is the number of keys of the map |
| HashTables.HashTable.GrowthFits | compat/jansson/hashtable.c:162-171 | growing before a pair is set stays inside the table of primes if and only if the map has fewer pairs than the largest prime |
| HashTables.Run | compat/jansson/hashtable.c:224-305 | every answer of any sequence of set, get, del and clear, growth included, is the one the finite map gives, and the table refines that map at the end, with the order of iteration that the calls determine; the only bound is that of `GrowthFits`, for the calls of set |
| HashTables.FullTableReached | compat/jansson/hashtable.c:224-267 | a run from the empty table in which every call of set fits ends with as many pairs as the largest prime |
| Sha256.MacrosMatchStandard | sha2.c:51-57 | the program's forms of Ch, Maj and the four sigmas equal those of FIPS 180-4 |
| Fips180.Temp1IsStd | sha2.c:60-66 | the first temporary of a round is the sum of section 6.2.2 of FIPS 180-4, modulo 2^32 |
| Fips180.Temp2IsStd | sha2.c:60-66 | the second temporary is the big sigma of a plus Maj, modulo 2^32 |
| Fips180.RoundIsStd | sha2.c:60-74 | one round gives all eight registers those of the standard |
| Fips180.ScheduleIsStd | sha2.c:87-100 | every word of the message schedule is the one of the standard |
| Fips180Constants.RoundConstants | sha2.c:26-43 | word i of the table is the first 32 bits of the fractional part of the cube root of the i-th prime, for all 64 |
| Fips180Constants.InitialHash | sha2.c:21-24 | the initial words are those of the square roots of the first eight primes |
| Sha256.SigmasOfZero | sha2.c:56-57 | s0(0) = s1(0) = 0, which lets the fast schedule skip zero words |
| Sha256.AddGroup | sha2.c:60-66 | 32-bit addition is a commutative group, so sums may be reordered |
| Sha256.SlotsTurn | sha2.c:69-74 | the rotating register file: from one round index to the next every role moves to the slot the macro names |
| Sha256.RoundInPlace | sha2.c:60-74 | for every round index, the two additions in place are one round of the standard on the rotated registers |
| Sha2.Transform | sha2.c:82-172 | for either byte order the in-place schedule and 64 rotated rounds are the compression function |
| Sha2.Sha256d | sha2.c:199-222 | for every length below 2^28 the tail loop feeds exactly the blocks of the padded message, so the result is SHA-256 of SHA-256, even if written over the data |
| Fips180.HashIsStd | sha2.c:76-222 | the hash of a byte string, with the model's schedule, rounds, constants and padding, is SHA-256 as FIPS 180-4 writes it, for every length below 2^61 |
| Sha2.SecondHashIsHash | sha2.c:177-182 | one block with the fixed padding of 32 bytes is the hash of the digest's bytes |
| Sha2.WordOfBytes | sha2.c:206-221 | writing a word's bytes and reading them back as a big-endian word is the identity, at every place |
| MiningKernel.PreExtend | sha2.c:224-242 | what it leaves in W[16..] is what the completing step of every nonce expects, for every header |
| MiningKernel.ExtendNonce | sha2.c:275-292 | with the preset partial sums and the zero words left out, the schedule is that of the header block with its nonce |
| MiningKernel.Prehash | sha2.c:244-250 | three rounds that do not depend on the nonce, from any midstate |
| MiningKernel.FourUpdates | sha2.c:453-461 | the last rounds reduced to four register updates give the same last register as the full rounds |
| MiningKernel.Sha256dMs | sha2.c:259-462 | word 7 of the double hash is exact for every header and nonce, and W is left ready for the next nonce |
| ScanHash.FullTest | util.c:550-567 | true exactly when the hash, as a 256-bit number, does not exceed the target |
| Fips180.QualifiesIsStd | sha2.c:605-625 | a nonce qualifies if and only if SHA-256 of SHA-256 of the 80 bytes of the header, read as a number with its lowest byte first, does not exceed the target |
| Fips180.HeaderIsBuilt | xmrMiner.c:1093-1094 | the twenty words of any work with the padding words set there are a header the scan is about |
| ScanHash.Sha256d80Swap | sha2.c:184-197 | the double hash of an 80-byte header given as padded words, byte-swapped |
| ScanHash.DoubleHashOfBytes | sha2.c:184-197 | that double hash is SHA-256 of SHA-256 of the header's 80 bytes, under the padding words set at xmrMiner.c:1093-1094 |
| ScanHash.PrefilterKeeps | sha2.c:617 | a hash rejected on its top word exceeds the target |
| ScanHash.Scan | sha2.c:584-630 | nonces are tried upward from pdata[19] and the last one tried is left there: none before it meets the target or is followed by a restart, 1 means it meets the target, and 0 means it does not and the range ended or a restart came; the loop ends despite the wrap at the start; the count is exact if and only if `CountFits` holds beforehand |
| ScanHash.LastUnique | sha2.c:614-625 | the nonce at which the scan stops is the only one with that description |
| ScanHash.CountExactly | sha2.c:627-628 | the 32-bit count is exact if and only if a nonce is left out of the range or one before its last ends the scan; otherwise all 2^32 are tried |
| ScanHash.WholeRangeCountsZero | sha2.c:627-628 | the whole range, a target that no nonce meets and no restart: 2^32 nonces are tried and counted as 0 |
| Utf8.FirstIsEncoded | compat/jansson/utf.c:47-137 | a character accepted by the checks is a scalar value, and its bytes are that value's encoding |
| Utf8.EncodedIsFirst | compat/jansson/utf.c:11-45 | every scalar value is decoded from its encoding, whatever follows |
| Utf8.EncodedBytes | compat/jansson/utf.c:11-45 | no byte of an encoding is 0xF5 or above, so as a signed character none is -1 or -2; bytes of characters above 0x7F are above 0x7F, and none is zero but for NUL |
| Utf8.EncodedInTable | compat/jansson/utf.c:11-45 | length, byte ranges and bits of an encoding are those of the table of RFC 3629 |
| Utf8.CheckFull | compat/jansson/utf.c:83-137 | the loop and its range tests accept exactly well-formed sequences and compute their value |
| Utf8.Iterate | compat/jansson/utf.c:139-163 | the next character, or none at bytes that are not UTF-8 |
| Utf8.CheckString | compat/jansson/utf.c:165-190 | true exactly for valid strings |
| Utf8.ValidExactly | compat/jansson/utf.c:165-190 | a string is valid if and only if it is the concatenation of encodings of some sequence of scalar values |
| JsonStrings.DumpString | compat/jansson/dump.c:68-158 | the loop over str, pos and end puts out what `Emitted` says, with the same result, for every string of bytes that a C string can hold, UTF-8 or not, and every flag |
| JsonStrings.DumpedValid | compat/jansson/dump.c:68-158 | printing succeeds exactly for valid strings, and prints them character by character between quotes |
| JsonStrings.EmittedBroken | compat/jansson/dump.c:68-158 | of a valid text with bad bytes behind it, everything up to the last character that needs an escape is printed, whatever was held back before, and nothing after it |
| JsonStrings.LostExactly | compat/jansson/dump.c:68-158 | the output for every string that is not UTF-8; no character in front of its first bad bytes is lost if and only if there is none or the last one needs an escape |
| JsonStrings.LetterLost | compat/jansson/dump.c:68-158 | of the letter a and the byte 0x80 only the opening quote is printed |
| JsonStrings.EscapeRead | compat/jansson/load.c:380-451 | the escape of a character, short, four-digit or surrogate pair, is read back as its UTF-8 encoding |
| JsonStrings.UnescapedFits | compat/jansson/load.c:361-372 | the unescaped string is never longer than the saved text, so the buffer allocated for it holds it |
| JsonStrings.StringRoundTrip | compat/jansson/dump.c:68-158 | for every valid string without NUL and every flag set, the printed text is scanned to its own closing quote and unescaped to the same string |
| JsonLexer.Stream.Get | compat/jansson/load.c:148-209 | the bytes of the input one by one up to its end or to the first bytes that are not UTF-8; a byte is never mistaken for -1 or -2 |
| JsonLexer.Stream.Unget | compat/jansson/load.c:211-227 | the last byte is put back, and the two assertions there hold |
| JsonScanner.Lexer.FindQuote | compat/jansson/load.c:316-359 | the first pass stops at the closing quote if the string is well formed and fails otherwise |
| JsonScanner.UnescapeSaved | compat/jansson/load.c:374-453 | the second pass computes the unescaped bytes, or fails on surrogates that do not pair and on zero |
| JsonScanner.DecodeUnicodeEscape | compat/jansson/load.c:283-304 | the value of four hexadecimal digits |
| JsonScanner.Lexer.ScanString | compat/jansson/load.c:306-459 | the string token, with the stream left behind its closing quote |
| JsonScanner.Lexer.ScanNumber | compat/jansson/load.c:473-566 | sign, digits, fraction and exponent are taken exactly as the token function says; integers must fit 64 bits |
| JsonScanner.Lexer.Scan | compat/jansson/load.c:568-636 | for every input, blanks are skipped and the token and the rest of the text are those of the function `JsonTokens.Scan` |
| JsonParser.KeyAtFinds | compat/jansson/value.c:86-107 | looking a key up finds a pair with that key if there is one |
| JsonParser.ArrayOf | compat/jansson/load.c:744-782 | the array loop computes the grammar's result and leaves the stream where the grammar does |
| JsonParser.ObjectOf | compat/jansson/load.c:671-742 | the same for objects, with repeated keys replaced or refused as the flag says |
| JsonParser.ValueOf | compat/jansson/load.c:784-846 | the same for any value, by recursion on the text that is left |
| JsonParser.JsonLoads | compat/jansson/load.c:848-924 | the value of a whole text, or none, under every flag |
| JsonExact.CharsRead | compat/jansson/load.c:306-459 | whatever string the grammar of RFC 8259 says a text between quotes denotes, escapes in either case included, is what the scanner makes of it |
| JsonExact.ReadChars | compat/jansson/load.c:306-459 | and what the scanner makes of a text the text denotes |
| JsonExact.CollectedIsMerged | compat/jansson/load.c:671-742 | the members of a parsed object are, each once and where its key came first, the keys of the text, with the value of the last pair with that key |
| JsonExact.ParsesExactly | compat/jansson/load.c:848-924 | a text is accepted with a value if and only if it denotes that value by the grammar, for every sequence of bytes, every value and every set of the other flags |
| JsonExact.ParsesPrefixExactly | compat/jansson/load.c:848-924 | without the check for the end, the same for the value at the front, which goes on as far as its last token can |
| JsonDump.SortedSame | compat/jansson/dump.c:303-328 | sorting the pairs of an object keeps each of them |
| JsonDump.SortedInOrder | compat/jansson/dump.c:160-172 | no pair comes after one it belongs before, by key or by serial number |
| JsonLayout.OrderedAsAsked | compat/jansson/dump.c:303-328 | the pairs are printed in the order of their keys, of their insertion, or of the table, as the two flags ask, each once |
| JsonLayout.CharExactly | compat/jansson/dump.c:86-151 | which text is printed for a character under which flags: itself, a letter behind a backslash, or one or two escapes in lower-case digits; no other text is |
| JsonLayout.QuotedExactly | compat/jansson/dump.c:68-158 | a text is printed for a string if and only if it is those characters between quotes, and strings that are not UTF-8 have none |
| JsonLayout.IntegerExactly | compat/jansson/dump.c:191-205 | an integer is printed as the only number of RFC 8259 with its value, zero without a sign |
| JsonLayout.WhiteSpace | compat/jansson/dump.c:46-66 | line ends, indentation, commas and colons for each flag, in bytes |
| JsonLayout.PrintedAsItself | compat/jansson/dump.c:86-105 | a valid string is printed as itself between quotes if and only if it has no control character, quote or backslash, no slash under escapeSlash and nothing above 0x7F under ensureAscii |
| JsonLayout.SlashPrinted | compat/jansson/dump.c:93-95 | a slash has a backslash in front exactly under escapeSlash |
| JsonLayout.DumpAscii | compat/jansson/dump.c:97-99 | under ensureAscii every byte printed for a value without floating-point numbers is below 0x80, whatever its strings and keys are |
| JsonLayout.DumpExactly | compat/jansson/dump.c:174-410 | printing succeeds with a text only if the flags describe that text of the value, and, for objects as the hash table keeps them, with every text they describe |
| JsonDump.DoDump | compat/jansson/dump.c:174-410 | for every value, flag set and depth it puts out exactly the printed text, and fails exactly when the text function does |
| JsonDump.PutIndent | compat/jansson/dump.c:46-66 | a new line with depth times the indentation, a space, or nothing |
| JsonDump.DumpSucceeds | compat/jansson/dump.c:174-410 | printing succeeds if and only if every string that is a value is UTF-8, whatever the keys are |
| JsonDump.BadKeyPrinted | compat/jansson/dump.c:376 | an object with one bad key is printed, with success, as text with a single quote |
| JsonDump.JsonDumps | compat/jansson/dump.c:412-456 | the text, for arrays and objects, or for any value under the flag |
| JsonRoundTrip.ScanInteger | compat/jansson/load.c:473-523 | the decimal text of every 64-bit integer is scanned back as that integer |
| JsonRoundTrip.ParseDumped | compat/jansson/dump.c:174-410 | at any depth, the printed text of a value in front of a delimiter is parsed as the value read back, up to the delimiter |
| JsonRoundTrip.ReadBackEqual | compat/jansson/value.c:864-892 | the value read back is equal in the sense of json_equal, though its objects may be ordered differently |
| JsonRoundTrip.DumpClean | compat/jansson/dump.c:174-410 | the printed text is valid UTF-8 without NUL |
| JsonRoundTrip.RoundTrip | compat/jansson/load.c:848-879 | for every value of null, booleans, 64-bit integers, valid strings, arrays and objects with distinct keys, printing under any flags succeeds and parsing the text gives an equal value |
| JsonParsed.UnescapedClean | compat/jansson/load.c:361-453 | the contents of a string token are UTF-8 without NUL: the body is cut only between characters, and every escape stands for a scalar value other than zero |
| JsonParsed.ScanClean | compat/jansson/load.c:568-636 | every token of a UTF-8 text holds a clean string or a 64-bit integer, and what is left of the text is UTF-8 again |
| JsonParsed.ParsedIsKept | compat/jansson/load.c:848-924 | whatever bytes and flags are given, integers of the result fit 64 bits, its strings and keys are UTF-8 without NUL, and the keys of each object differ |
| JsonParsed.StorableExactly | compat/jansson/load.c:784-846 | the values that `RoundTrip` is about are exactly those with the properties of `ParsedIsKept`, floating-point numbers aside |
| JsonParsed.EqualReflexive | compat/jansson/value.c:864-895 | a value that the parser can return is equal to itself |
| JsonParsed.EqualSymmetric | compat/jansson/value.c:260-277 | equality of objects looks the keys of the first one up in the second; on values that the parser can return it is symmetric all the same |
| JsonParsed.EqualTransitive | compat/jansson/value.c:864-895 | and transitive |
| JsonParsed.PermutedIsEqual | compat/jansson/value.c:260-277 | another order of the pairs of objects, at any depth, makes an equal value with the same properties |
| JsonParsed.ReprintedIsEqual | compat/jansson/dump.c:412-456 | whatever was parsed without floating-point numbers, from any bytes under any flags, and in whatever order the tables of its objects hold their pairs, is printed with success under any flags, and the text is parsed as an equal value under any flags that let the value in |
| JsonParsed.ReadsBackExactly | compat/jansson/dump.c:376 | a value with clean string values, 64-bit integers and different keys is printed with success whatever its keys are, and read back equal if and only if every key is clean |
| JsonParsed.BadKeyNotParsed | compat/jansson/dump.c:376 | the text of `BadKeyPrinted` is refused by the parser, under every flag |
| AesField.DoubleReduces | crypto/oaes_lib.c:348-379 | {02} times a byte is a shift, reduced by 0x11b when the top bit falls out |
| AesField.TableE | crypto/oaes_lib.c:219-237 | the table of products by 0x0e is multiplication by {0e} in GF(2^8) |
| AesField.SubUndone | crypto/oaes_lib.c:79-117 | the inverse substitution table undoes the substitution table |
| Fips197.SubByteIsStd | crypto/oaes_lib.c:79-99 | every entry of the substitution table is the affine transformation of the multiplicative inverse in GF(2^8) |
| Fips197.RoundIsStd | crypto/oaes_lib.c:1407-1435 | one full round is, byte by byte, the round of FIPS 197 with products in the field |
| Fips197.TenRoundsAreStd | crypto/oaes_lib.c:1437-1457 | the ten pseudo-rounds take the first 160 bytes of the expanded key in order, every round a full one |
| Fips197.CipherIsStd | crypto/oaes_lib.c:975-1090 | the cipher of the model is the Cipher of FIPS 197, for every block, key list and number of rounds |
| Fips197.ExpandedIsStd | crypto/oaes_lib.c:522-579 | every byte of the expanded key satisfies the recurrence of section 5.2 of FIPS 197, for all three key lengths |
| AesField.DoubleLinear | crypto/oaes_lib.c:348-379 | multiplication by {02} is linear over exclusive or |
| AesField.MixUndone | crypto/oaes_lib.c:381-419 | each row of the inverse column matrix, applied to a mixed column, gives back the byte of the column |
| AesField.UnmixUndone | crypto/oaes_lib.c:381-419 | and each row of the column matrix, applied to an unmixed column, gives back its byte |
| Aes.RoundsUndone | crypto/oaes_lib.c:1131-1176 | the inverse rounds in their order walk back through any number of forward rounds, for any round keys |
| Aes.CipherUndone | crypto/oaes_lib.c:1092-1206 | deciphering undoes enciphering for every block, every list of round keys and every number of rounds |
| Aes.InvRoundsUndone | crypto/oaes_lib.c:1092-1206 | the forward rounds walk back through the inverse rounds |
| Aes.InvCipherUndone | crypto/oaes_lib.c:1092-1206 | enciphering undoes deciphering, for every block and key list |
| Aes.KeyComesFirst | crypto/oaes_lib.c:543-544 | the expanded key starts with the key |
| OaesBlocks.ShiftRowsInPlace | crypto/oaes_lib.c:297-318 | the twelve assignments over five saved bytes are ShiftRows |
| OaesBlocks.InvShiftRowsInPlace | crypto/oaes_lib.c:320-346 | the inverse of ShiftRows on sixteen bytes of a buffer, nothing else changed |
| OaesBlocks.MixCols | crypto/oaes_lib.c:381-399 | one column by table lookups is the column of MixColumns |
| OaesBlocks.InvMixCols | crypto/oaes_lib.c:401-419 | one column by table lookups is the column of InvMixColumns |
| OaesBlocks.GfMulMultiplies | crypto/oaes_lib.c:348-379 | table lookup multiplies in the field, for all six multipliers |
| OaesLib.Gf8IsPowerOfTwo | crypto/oaes_lib.c:76-77 | the table of round constants holds the powers of {02} |
| OaesLib.Key.Expand | crypto/oaes_lib.c:522-579 | for each of the three lengths the loop lays out the round keys of FIPS 197, one more than there are rounds |
| OaesLib.EncryptBlock | crypto/oaes_lib.c:975-1090 | in place, the cipher of FIPS 197 |
| OaesLib.DecryptBlock | crypto/oaes_lib.c:1092-1206 | in place in a longer buffer, the inverse cipher, nothing else changed |
| OaesLib.EncryptionRound | crypto/oaes_lib.c:1407-1435 | one full round |
| OaesLib.PseudoEncryptEcb | crypto/oaes_lib.c:1437-1457 | ten full rounds with the first ten round keys |
| OaesMessages.Context.SetOption | crypto/oaes_lib.c:911-973 | exactly one of the two modes is on afterwards, with a zero, given or random IV; anything else is refused and changes nothing |
| OaesMessages.Context.KeyImportData | crypto/oaes_lib.c:792-842 | a key of 16, 24 or 32 bytes is expanded; other lengths are refused and leave the old key |
| OaesMessages.Context.Encrypt | crypto/oaes_lib.c:1208-1278 | the length, every error in its order, and on success header, IV and chained blocks of the padded text, with the last cipher block kept as the next IV |
| OaesMessages.Context.Decrypt | crypto/oaes_lib.c:1280-1404 | for every message but those of `PaddedButEmpty`: every error in its order, the header and padding checks, the length reported with every error, what is left in the buffer on every return, the text and the zeros where its padding was |
| OaesMessages.PadTestOutside | crypto/oaes_lib.c:1384-1393 | the padding test reads before the text if and only if an accepted header marks padding on a message without text; otherwise every byte it may read is in the text |
| OaesMessages.PaddedEmptyMessage | crypto/oaes_lib.c:1322-1362 | such messages exist, for both modes and every IV |
| OaesMessages.SealedNotPaddedEmpty | crypto/oaes_lib.c:1208-1278 | no message that oaes_encrypt writes is one |
| OaesMessages.RemovePad | crypto/oaes_lib.c:1384-1401 | the padding is removed exactly when the text ends in 1, 2, ..., k |
| OaesMessages.OpenSealed | crypto/oaes_lib.c:1208-1404 | decrypting undoes encrypting for every message length, IV, mode and list of round keys; the padding is removed exactly when it was added |
| OaesFormat.SealedIsMessage | crypto/oaes_lib.c:1208-1278 | what is written, byte by byte: OAES, version, type, mode and padding mark, the IV, and ECB or CBC of NIST SP 800-38A over the text filled up with 1, 2, 3, ... |
| OaesFormat.ModesAre | crypto/oaes_lib.c:1253-1270 | the chained blocks are one pass of ECB or CBC over the padded text |
| OaesFormat.OpenedExactly | crypto/oaes_lib.c:1280-1404 | decrypting gives the text m for exactly the messages of m, for either mode and every IV, up to the seven header bytes that nobody reads |
| Aesb.F2Doubles | crypto/aesb.c:124 | the table macro's doubling is multiplication by {02} |
| Aesb.RoundWordMixes | crypto/aesb.c:51-55 | four table lookups and the key word are a mixed column plus the key, byte by byte |
| Aesb.RoundByWords | crypto/aesb.c:51-55 | the round macro on words is SubBytes, ShiftRows, MixColumns and AddRoundKey on their bytes, for every block and key |
| Aesb.SingleRound | crypto/aesb.c:147-150 | equals oaes_encryption_round |
| Aesb.PseudoRoundMut | crypto/aesb.c:152-165 | ten rounds between two buffers equal oaes_pseudo_encrypt_ecb |
| PermuteArgs.Gcd | compat/getopt/getopt_long.c:142-156 | a common divisor that every common divisor divides |
| PermuteArgs.IndexInjective | compat/getopt/getopt_long.c:170-191 | the steps of a cycle reach different positions |
| PermuteArgs.StepInjective | compat/getopt/getopt_long.c:170-191 | different positions lie at different steps or on different cycles, so every position is visited once |
| PermuteArgs.Permute | compat/getopt/getopt_long.c:162-192 | for all positive lengths, A followed by B becomes B followed by A, in place, and nothing outside changes |
| GetoptLong.Scanner.Call | compat/getopt/getopt_long.c:348-425 | one call keeps the relation between nonopt_start, nonopt_end, optind and the vector, and reports the next option with its argument, or the end |
| GetoptLong.Run | compat/getopt/getopt_long.c:317-505 | after a whole run the vector is the options with their arguments, the non-options, and what followed "--", each group in its old order, optind is at the first non-option, and the options were reported in order |
| GetoptLong.SplitPermutes | compat/getopt/getopt_long.c:348-425 | the groups are a rearrangement of the arguments |
| GetoptLong.SplitGroups | compat/getopt/getopt_long.c:348-425 | only non-options are moved back, and a vector of non-options stays as it is |
| Shifts.LeftShifts | uint256.h:114-129 | limbs put together from two neighbours are the number times the power of two, modulo 2^(32 WIDTH), for any shift |
| Shifts.RightShifts | uint256.h:131-146 | the same for the quotient by the power of two |
| Uint256.BaseUint.Complement | uint256.h:42-48 | all ones minus the number |
| Uint256.BaseUint.Negate | uint256.h:50-57 | the negative modulo 2^(32 WIDTH) |
| Uint256.BaseUint.AddAssign | uint256.h:148-158 | the sum modulo 2^(32 WIDTH), also of a number with itself |
| Uint256.BaseUint.SubAssign | uint256.h:160-164 | the difference modulo 2^(32 WIDTH) |
| Uint256.BaseUint.AddAssign64 | uint256.h:166-172 | the sum with a 64-bit number |
| Uint256.BaseUint.SubAssign64 | uint256.h:174-180 | the difference with a 64-bit number |
| Uint256.BaseUint.Increment | uint256.h:183-190 | one more, modulo 2^(32 WIDTH) |
| Uint256.BaseUint.Decrement | uint256.h:200-207 | one less, modulo 2^(32 WIDTH) |
| Uint256.BaseUint.ShiftLeftAssign | uint256.h:114-129 | multiplication by 2^shift modulo 2^(32 WIDTH), for every shift |
| Uint256.BaseUint.ShiftRightAssign | uint256.h:131-146 | division by 2^shift, rounding down, for every shift |
| Uint256.BaseUint.Less | uint256.h:218-228 | the order of the numbers |
| Uint256.BaseUint.AtMost | uint256.h:230-240 | the order of the numbers |
| Uint256.BaseUint.Equals | uint256.h:266-272 | equality of the numbers |
| Uint256.BaseUint.Equals64 | uint256.h:274-284 | equality with a 64-bit number |
| Uint256.BaseUint.IsZero | uint256.h:34-40 | true exactly for zero |
| Uint256.BaseUint.GetHex | uint256.h:298-304 | all 8 WIDTH hexadecimal digits of the number |
| Uint256.BaseUint.SetHex | uint256.h:306-336 | for every text, the number of its digits after white space and "0x", modulo 2^(32 WIDTH) |
| HexText.DigitTable | uint256.h:319-335 | the sixteen digits in both cases, and the lower-case ones that are printed |
| HexText.HexExactly | uint256.h:319-322 | no other character is a digit |
| HexText.CaseDoesNotMatter | uint256.h:319-335 | texts that differ in the case of letters have the same number |
| HexText.DigitsOfExactly | uint256.h:311-323 | the digits taken are those of every way, and every text has one, to take it apart into white space, an optional 0x, digits, and a rest that goes on with no digit |
| Uint256.HexRoundTrip | uint256.h:298-336 | SetHex undoes GetHex for every width and number |
| Keccak.TourRotation | crypto/c_keccak.c:60-66 | the rotation table in the order of the tour is the table of rho offsets |
| Keccak.RotationsTriangular | crypto/c_keccak.c:21-25 | the rotation amounts are the triangular numbers modulo 64 |
| Fips202.ConstantsAreStd | crypto/c_keccak.c:7-17 | all 24 round constants come from the shift register of section 3.2.5 of FIPS 202, bit by bit |
| Fips202.OffsetIsStd | crypto/c_keccak.c:19-29 | the rotation of every lane is the one found by the walk of section 3.2.2 |
| Keccak.RhoPiInPlace | crypto/c_keccak.c:60-66 | one tour through 24 lanes in place is rho followed by pi |
| Keccak.ThetaInPlace | crypto/c_keccak.c:41-58 | in place, theta |
| Keccak.ChiInPlace | crypto/c_keccak.c:68-79 | in place, chi |
| Keccak.KeccakF | crypto/c_keccak.c:33-81 | any number of rounds |
| Fips202.RoundIsStd | crypto/c_keccak.c:33-81 | one round is theta, rho, pi, chi and iota as FIPS 202 writes them |
| Keccak.Hash | crypto/c_keccak.c:86-122 | for every length and every digest size for which a block fits its buffer (28 to 99, and 200), the sponge over the padded message |
| Fips202.PaddedIsStd | crypto/c_keccak.c:103-108 | the padding: a first bit, zeros and a last bit up to a whole number of blocks |
| Fips202.SpongeIsStd | crypto/c_keccak.c:86-122 | the state that the digest is cut from is that of the sponge over strings of bytes, for every rate of whole lanes |
| Keccak.BlocksDistinct | crypto/c_keccak.c:93-101 | different blocks always have different effects if and only if the rate is a number of whole lanes; otherwise the last byte of a block is lost |
| Keccak.ByteLost | crypto/c_keccak.c:93-101 | a byte behind the whole lanes of its block, anywhere in a message of any length, does not change the hash |
| Keccak.MessagesCollide | crypto/c_keccak.c:91-101 | for every rate that is no number of whole lanes there are different messages with the same hash |
| CnKeccak.BitSelectIsChi | cryptonight/cuda_cryptonight_keccak.hpp:29 | the choice of bits is chi's expression |
| CnKeccak.Rotl2Is | cryptonight/cuda_cryptonight_keccak.hpp:28 | exchanging the halves and rotating by y rotates by y + 32, for every y below 32 |
| CnKeccak.RoundInPlace | cryptonight/cuda_cryptonight_keccak.hpp:35-85 | the fixed order of assignments over the lanes is one round, for every state |
| CnKeccak.CnKeccakF2 | cryptonight/cuda_cryptonight_keccak.hpp:31-86 | equals keccakf with 24 rounds, for every state |
| CnKeccak.FirstRoundInPlace | cryptonight/cuda_cryptonight_keccak.hpp:90-137 | the first round with the known lanes left out is the full first round |
| CnKeccak.CnKeccakF | cryptonight/cuda_cryptonight_keccak.hpp:88-188 | equals keccakf with 24 rounds on states with those lanes |
| CnKeccak.CnHash | cryptonight/cuda_cryptonight_keccak.hpp:190-203 | equals keccak1600 on every input of 76 bytes, whatever the uninitialised half lane held |
| CryptoNight.Mul128 | cryptonight.c:76-99 | both words of the exact 128-bit product, no carry lost |
| Powers.MaskIsRemainder | cryptonight.c:101-103 | a mask of k ones takes the remainder by 2^k, for every number and k |
| CryptoNight.SelectedStart | cryptonight.c:101-103 | the block that the mask selects starts at the address without its low four bits, taken round the scratchpad, and lies inside it |
| CryptoNight.Variant1Bits | cryptonight.c:16-23 | variant 1 changes no bits of byte 11 but two |
| CryptoNight.MulSumXorDst | cryptonight.c:124-132 | product, sums, exchange and tweak of one step |
| CryptoNight.HalfTurn | cryptonight.c:172-180 | half a turn of the loop is one plain step, with the new block in the other buffer |
| CryptoNight.MainLoop | cryptonight.c:172-190 | ITER/4 turns with exchanged buffers equal ITER/2 plain steps, for any AES round and both variants |
| Cns008.FlippedIs | cryptonight.c:16-23 | which bits variant 1 changes, as a table over bits 5, 4 and 0 of the byte |
| Cns008.AddressIs | cryptonight.c:101-103 | the address is the 21 low bits with the last four cleared |
| Cns008.StepIsStd | cryptonight.c:172-180 | the plain step is the step of CNS008: load, AES round, exchange, 8-byte multiplication and addition, exchange |
| SlowHash.Fill | cryptonight.c:157-170 | block k of the filled scratchpad is block k mod 8 of the text after k / 8 + 1 turns |
| SlowHash.Fold | cryptonight.c:192-206 | each block of the text is added to every eighth block of the scratchpad in turn, with ten rounds after each |
| SlowHash.CryptonightHash | cryptonight.c:149-211 | the whole hash, for any sponge, keyed rounds and last hashes: absorb, fill, 2^19 steps of CNS008, fold, permute, choose; nothing for a short input under variant 1 |
| Blake.State.Update | crypto/c_blake256.c:127-155 | for every input, which bytes are cut into blocks, with which counters, and which bytes wait |
| Blake.FitsExactly | crypto/c_blake256.c:128-131 | the lengths for which those are the right bytes, if and only if |
| Blake.TicksCountBits | crypto/c_blake256.c:134-135 | the two-word counter with its carry test counts bits up to 2^64 |
| Blake.BackAndTick | crypto/c_blake256.c:168-189 | turned back below zero in pieces and stepped once, the counter is the number of message bits |
| Blake.State.FinalH | crypto/c_blake256.c:162-198 | in all three cases the last blocks, their counters and the suppressed counters are those of the specification |
| Blake.BlakeHash | crypto/c_blake256.c:209-214 | for every length, BLAKE-256 with its padding and counters |
| BlakeSubmission.HashIsStd | crypto/c_blake256.c:162-214 | that is the hash of the submission: a one bit, zeros, a one bit and the length, and for each block the number of message bits up to its end, or zero if it has none |
| BlakeSubmission.StartIsStd | crypto/c_blake256.c:100-109 | the initial chain value is that of SHA-256 |
| Blake.HmacHash | crypto/c_blake256.c:313-318 | H(K^opad, H(K^ipad, m)) for every key and message |
| BlakeSubmission.HmacIsStd | crypto/c_blake256.c:225-258 | that is HMAC as RFC 2104 writes it, with its two constants |
| Groestl.IncrementCounts | crypto/c_groestl.c:172-174 | the two-word block counter counts |
| Groestl.State.Update | crypto/c_groestl.c:226-269 | for any split into pieces, the state is that of the whole message |
| Groestl.State.LastBlock | crypto/c_groestl.c:304-318 | the last eight bytes are the number of blocks, though the counter is used up to write them |
| Groestl.State.Final | crypto/c_groestl.c:275-332 | one or two padding blocks, the total block count, and the last half of the transformed state |
| Groestl.GroestlHash | crypto/c_groestl.c:335-350 | the padded message's hash, for every length |
| GroestlSubmission.HashIsStd | crypto/c_groestl.c:275-350 | padding, block count, initial value and truncation are those of the submission |
| Skein.State.ProcessBlock | crypto/c_skein.c:747-907 | each block adds to the position, and FIRST is cleared after the first |
| Skein.FlagSteps | crypto/c_skein.c:903 | clearing FIRST and setting FINAL take the flags of a block to those it should have |
| Skein.State.Update | crypto/c_skein.c:1492-1533 | for any split into pieces, the state is that of the whole message with its last block kept back |
| Skein.State.Final | crypto/c_skein.c:1540-1571 | the last block, also of the empty message, has the message length as position and FINAL, and output blocks run in counter mode under the final chain value |
| Skein.AllButLast | crypto/c_skein.c:1492-1533 | the blocks processed before Final have the tweaks of the specification |
| Skein.SkeinHash | crypto/c_skein.c:1492-1571 | every block carries the bytes so far, FIRST only on the first and FINAL only on the last, for every length |
| SkeinSubmission.HashIsStd | crypto/c_skein.c:1492-1571 | the whole is UBI of section 3.4 over the message, and UBI over each output counter, with the tweak bits of section 3.5.1 |
| Donation.LagBounded | xmrMiner.c:715-746 | in every run whose choices are at most K shares old, w * share_count - count_dev stays between -(K+1)(1-w) and (K+2)w |
| Donation.OverweightLags | xmrMiner.c:715-719 | with a weight above 1 it grows without bound |
| Donation.Scheduler.Submit | xmrMiner.c:721-746 | one share is counted, the pool for the next work is chosen by the ratio, and the bound above holds for the counters |
| Donation.Scheduler.GetWork | xmrMiner.c:765-773 | new work is fetched from the pool last chosen |

## Left out

- Sockets, HTTP, JSON-RPC and stratum transport, logging, command-line semantics and CUDA launch code: input and output.
- Floating point: `diff_to_target`, JSON real numbers beyond their text, `getdouble`, hash rates; the donation ratio is a real number.
- HashTables.HashTable.Set: does not model reference counts and failed allocations; a call on a table as large as the last prime is excluded, because the program then reads outside its table of primes.
- Other Jansson files (pack_unpack, memory, error, strbuffer): a saved text is a sequence and a JSON value a datatype.
- JsonScanner.Lexer.ScanNumber: a number with fraction or exponent becomes a token holding its text; its value and its overflow error are floating point.
- JsonLexer.Stream.Get: does not keep line and column numbers; inputs with NUL bytes, which only other readers than json_loads can deliver, are excluded.
- JsonParser.JsonLoads: error messages and the flag that turns integers into reals are not modelled.
- JsonStrings.DumpString: a C string ends at its first zero byte, so only sequences without zero stand for strings that the program holds; the contract says nothing about the program for others.
- HashTables.PrimesIncrease: does not state that the bucket counts are prime; no answer and no order depends on it.
- JsonParser.ObjectOf: an object holds its pairs in the order in which they were added; the program's hash table holds them in the order of `HashTables.Run`, which is not put together with the parser.
- JsonDump.DoDump: values are trees, so the marks that detect cycles are not needed; the library's qsort is a sorting function; the sink never fails.
- OaesMessages.Context.Decrypt: an accepted header that marks padding on a message without text is excluded, because the program then reads outside its buffer; null pointers are left out but for the output buffers.
- OAES key generation, key export and the stepping callbacks of debug builds: plumbing around the same expanded key.
- The inverse rounds of aesb.c: tables no code uses.
- GetoptLong.Run: option letters, abbreviations, `-W`, POSIXLY_CORRECT and messages; an argument is a non-option, `--`, or an option that takes one or two elements.
- The 4-way and 8-way SHA-256 paths: external assembly.
- Bitwise assignments, the postfix operators and the comparisons `>`, `>=` and `!=` of base_uint: one limb at a time, or mirror images.
- SlowHash.CryptonightHash: the sponge, the keyed rounds, the permutation and the four last hashes are any functions; those of `Keccak`, `Aesb` and the last hashes work on bytes and bit vectors, and are not put in their places.
- Compression functions of BLAKE, Groestl and Skein and Threefish: any function; the salt of BLAKE is zero as the program sets it.
- Groestl.State.Update: pieces are whole bytes; the last bits of a message are not modelled.
- BLAKE-224 key hashing in HMAC, Skein-256, Skein-1024, tree hashing, and the computed Skein IV: near copies.
- JH and the CUDA copies of BLAKE, Groestl, Skein and AES: no simpler form in the repository to compare with.
- Donation.LagBounded: the weight is constant and donation active throughout.
