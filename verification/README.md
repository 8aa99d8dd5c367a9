# Passtore: cipher, JSON and what the vault does with a resource

A Dafny model of the hard core of the Passtore password manager. Passtore marshals a resource into
JSON (SimpleJSON), encrypts the text in CBC mode (TinyAES) and stores the bytes; to show the
resource it decrypts, parses and unmarshals. The model covers that path and the other modes of the
cipher library.

**The cipher.** `Field.dfy` has the byte arithmetic of `aes.c` and proves it equal to polynomial
arithmetic modulo x^8 + x^4 + x^3 + x + 1 (FIPS 197, section 4.2). `SBoxes.dfy` has both
substitution tables, proved to be the standard substitution and its inverse. `Aes.dfy` states the
cipher and the inverse cipher as functions of the round keys and the round count, and proves them
two-sided inverses. `Fips197.dfy` states the cipher once more, byte by byte and independently, as
equations whose only solution it is. `AesBlock.dfy` has the in-place transformations with their loops, proved
against those functions. `KeySchedule.dfy` has the word recurrence, the expansion loop, the
schedule as equations on the bytes of the expanded key, and the proof that it can be run backwards. `Counter.dfy` has the big-endian counter,
`Modes.dfy` the CBC and CTR modes as functions and what they promise over whole runs of calls,
`Sp80038a.dfy` both modes as equations between input, output and Iv, `AesContext.dfy` the context object and the buffer functions that rewrite the caller's array.

**JSON.** `JsonValues.dfy` has the values, `std::map` order, escaping and decimal notation.
`JsonParser.dfy` is the parser as functions that are total on every text, `JsonReader.dfy` the loops
of the source, which move one shared offset, proved equal to them. `JsonGrammar.dfy` describes the
well-formed texts as syntax trees and proves that the parser reads exactly such a text wherever it
stands; `JsonErrors.dfy` says what it makes of texts that go wrong. `JsonPrinter.dfy` is `dump`, `JsonRoundTrip.dfy` the proof that printing and parsing undo
each other. `JsonStatements.dfy` says by value semantics what statements like
`a["x"][3] = std::move(b["y"])` do. `JsonObjects.dfy` is the JSON class on the heap: tag, union,
owned payload, `new` and `delete`; its ghost tree `Own` names every object a JSON object owns, and
any run of assignments, copies, moves and appends through chains of `operator[]` is proved to do to
the objects what value semantics does to their values.

**The vault.** `Cryptor.dfy` pads and encrypts a string, `Marshaling.dfy` turns resources into
documents and back, `Vault.dfy` puts both ends together.

## Findings

Four properties one would expect do not hold of the code. Each is proved as an equivalence, so the
model says exactly when it does hold.

- A printed value is loaded again as the same value exactly when all its object keys are in the
  escaped form that `json_escape` produces and it is not a bare number (`LoadOfDump`;
  `BareNumberIsLost` and `RawKeyIsLost` give the two failing families). `dump` prints keys raw,
  while `parse_object` escapes them; `parse_number` refuses the NUL behind a number.
- A stored resource is fetched unchanged exactly when none of its strings has a NUL or a character
  that JSON escapes, and none of its values has a flag (`FetchedStored`; `QuoteIsNotKept` is an
  instance). `ToString()` escapes what it returns, so unmarshalling adds backslashes;
  `MarshalValuesRecursively` does not write the flags; the decrypted text is cut at the first NUL.
- Splitting one CTR call in two leaves the same Iv exactly when one of the parts is whole blocks or
  the incomplete blocks of both do not fit into one (`CtrSplitIv`).
- The `Multiply` macro is multiplication in the field exactly for factors below 32
  (`MultiplyIsTimes`); the code calls it with 0x09, 0x0b, 0x0d and 0x0e only.

The comment in `src/PasstoreLib/Security/Cryptor.h` speaks of AES-256; the configuration in
`ext/TinyAES/aes.h` is AES-128, and the model follows the configuration.

## Model

| member | source | states |
|---|---|---|
| Field.XtimeIsTimesTwo | ext/TinyAES/aes.c:294-297 | xtime is multiplication by x in GF(2^8) |
| Field.MultiplyIsTimes | ext/TinyAES/aes.c:329-334 | the macro multiplies every x by y in GF(2^8) if and only if y < 32 |
| Field.XtimeXor | ext/TinyAES/aes.c:294-297 | xtime is linear over exclusive or |
| Field.SharedXorIsMixByte | ext/TinyAES/aes.c:306-311 | the shared exclusive or of a column gives the matrix product of FIPS 197, section 5.1.3 |
| Field.InvMixRowsAreInvMixByte | ext/TinyAES/aes.c:355-363 | the four sums of Multiply terms give the matrix product of FIPS 197, section 5.3.3 |
| Field.UnmixByte | ext/TinyAES/aes.c:300-365 | the inverse matrix takes a mixed column back |
| Field.RemixByte | ext/TinyAES/aes.c:300-365 | and the matrix takes an inversely mixed column back |
| SBoxes.SBoxIsStandard | ext/TinyAES/aes.c:79-96 | every table entry is the affine image of the inverse in GF(2^8), with 0 for 0 |
| SBoxes.SBoxesInverse | ext/TinyAES/aes.c:79-115 | sbox and rsbox undo each other in both directions |
| Aes.SubBytesInverse | ext/TinyAES/aes.c:251-261 | SubBytes and InvSubBytes undo each other on every block |
| Aes.ShiftRowsInverse | ext/TinyAES/aes.c:266-292 | ShiftRows and InvShiftRows undo each other on every block |
| Aes.MixColumnsInverse | ext/TinyAES/aes.c:300-365 | MixColumns and InvMixColumns undo each other on every block |
| Aes.InvRoundsRetrace | ext/TinyAES/aes.c:438-460 | decrypting a ciphertext, after n inverse rounds the state is the one encryption had before the key addition of round nr - n |
| Aes.RoundsRetrace | ext/TinyAES/aes.c:412-435 | the converse, for encrypting what decryption produced |
| Aes.CipherInverse | ext/TinyAES/aes.c:412-460 | InvCipher and Cipher undo each other on every block, for all round keys and every round count from 1 on |
| Aes.CipherInjective | ext/TinyAES/aes.c:412-435 | different blocks have different ciphertexts |
| Fips197.CipherIsStandard | ext/TinyAES/aes.c:412-435 | the byte equations of SubBytes, ShiftRows, MixColumns and the key addition, chained over all rounds, hold of a ciphertext if and only if it is the cipher's |
| Fips197.InvCipherIsStandard | ext/TinyAES/aes.c:438-460 | the same equations hold of a plaintext if and only if it is the inverse cipher's |
| Fips197.EveryRoundKeyMatters | ext/TinyAES/aes.c:237-247 | two key arrays that differ in one round key, any one, encrypt and decrypt every block differently |
| AesBlock.AddRoundKey | ext/TinyAES/aes.c:237-247 | in place, byte k of the block is xored with byte 16 * round + k of the expanded key; nothing outside the block changes |
| AesBlock.SubBytes | ext/TinyAES/aes.c:251-261 | the nested loops apply the table to every byte of the block, in place |
| AesBlock.InvSubBytes | ext/TinyAES/aes.c:370-380 | the same for the inverse table |
| AesBlock.ShiftRows | ext/TinyAES/aes.c:266-292 | the moves through one temporary turn row r by r columns |
| AesBlock.InvShiftRows | ext/TinyAES/aes.c:382-408 | and back |
| AesBlock.MixColumns | ext/TinyAES/aes.c:300-313 | the loop multiplies every column by the matrix of section 5.1.3, although it overwrites the column as it reads it |
| AesBlock.InvMixColumns | ext/TinyAES/aes.c:349-365 | the loop multiplies every column by the matrix of section 5.3.3 |
| AesBlock.Cipher | ext/TinyAES/aes.c:412-435 | the loop with its exit in mid-round takes the block along the equations of section 5.1 of FIPS 197, round by round with that round's key |
| AesBlock.InvCipher | ext/TinyAES/aes.c:438-460 | the backward loop finds the block that those equations lead to the given one |
| KeySchedule.KeyExpansion | ext/TinyAES/aes.c:146-217 | the array starts with the key, and every later byte is the one Nk words before xored with the S-box image of the turned word and Rcon, with the S-box image, or with the plain byte of the word before, for all three key sizes; every index is in bounds |
| KeySchedule.ScheduleIsStandard | ext/TinyAES/aes.c:146-217 | these byte equations have one solution, the expanded key |
| KeySchedule.Sizes | ext/TinyAES/aes.h:33-42 | 16, 24 and 32 key bytes, 10, 12 and 14 rounds, 176, 208 and 240 bytes of expanded key |
| KeySchedule.PrepareTemp | ext/TinyAES/aes.c:163-210 | byte j of tempa is the S-box image of byte j + 1 with Rcon, the S-box image of byte j, or byte j, as i and Nk say |
| KeySchedule.RconInBounds | ext/TinyAES/aes.c:197 | the index into Rcon is from 1 to 10 for every configuration |
| KeySchedule.RconIsPower | ext/TinyAES/aes.c:120-121 | Rcon[i] is x^(i - 1) in GF(2^8), also at index 0 |
| KeySchedule.WindowDeterminesKey | ext/TinyAES/aes.c:161-216 | Nk consecutive words lie at a place in the schedule of exactly one key, the one found by running the recurrence backwards |
| KeySchedule.RoundKeyDeterminesKey | ext/TinyAES/aes.c:161-216 | for AES-128 each single round key fixes the cipher key, and every block is round key r of exactly one key |
| Counter.IncrementAddsOne | ext/TinyAES/aes.c:552-562 | the carry loop adds one to the big-endian number, with wrap |
| Counter.ValueFromFront | ext/TinyAES/aes.c:552-562 | the number read from the Iv has its most significant byte first |
| Counter.AdvanceValue | ext/TinyAES/aes.c:552-562 | n carry loops add n modulo 2^128 |
| Counter.AdvanceRepeats | ext/TinyAES/aes.c:552-562 | two counters of a run are equal if and only if they are a multiple of 2^128 steps apart |
| Modes.CbcEncryptBlock | ext/TinyAES/aes.c:504-510 | C_j = CIPH(P_j xor C_(j-1)), section 6.2 of NIST SP 800-38A |
| Modes.CbcDecryptBlock | ext/TinyAES/aes.c:519-526 | P_j = CIPH^-1(C_j) xor C_(j-1) |
| Sp80038a.CbcEncryptIsStandard | ext/TinyAES/aes.c:500-513 | block by block, the cipher of the plaintext bytes xored with the block before: the output satisfies this if and only if it is the mode's |
| Sp80038a.CbcDecryptIsStandard | ext/TinyAES/aes.c:515-528 | byte by byte, the inverse cipher of the block xored with the byte 16 places before, or the Iv's: the same equivalence |
| Sp80038a.CbcRunIsStandard | ext/TinyAES/aes.c:500-513 | the outputs of any run of calls together satisfy the equations for the whole message; the Iv left is the last ciphertext block |
| Modes.CbcDecryptEncrypt | ext/TinyAES/aes.c:500-528 | decrypting from the same Iv restores every aligned message |
| Modes.CbcEncryptRunIsWhole | ext/TinyAES/aes.c:500-513 | a run of calls on one context makes the ciphertext of the undivided message and leaves its last block |
| Modes.CbcDecryptRunIsWhole | ext/TinyAES/aes.c:515-528 | the same for decryption |
| Modes.CbcRunRoundTrip | ext/TinyAES/aes.c:500-528 | encrypt in any aligned pieces, decrypt in any others: the message comes back and both contexts end with the same Iv |
| Modes.CbcDecryptLocality | ext/TinyAES/aes.c:515-528 | if two ciphertexts differ in block k alone, their plaintexts differ in block j if and only if j is k or k + 1 |
| Modes.CtrTwice | ext/TinyAES/aes.c:537-568 | encryption is its own inverse |
| Sp80038a.CtrIsStandard | ext/TinyAES/aes.c:537-568 | every output byte i is the input byte xored with byte i mod 16 of the cipher of the block whose big-endian value is Iv + i / 16 modulo 2^128, if and only if the output is the mode's |
| Sp80038a.CtrRunIsStandard | ext/TinyAES/aes.c:537-568 | the same of every byte of every call of a run, the counter going on from call to call |
| Sp80038a.CtrRunIv | ext/TinyAES/aes.c:552-562 | after a run the Iv has gone up by the sum of all lengths over 16, each rounded up |
| Modes.CtrPrefix | ext/TinyAES/aes.c:537-568 | the output on a prefix is the prefix of the output |
| Modes.CtrSplit | ext/TinyAES/aes.c:537-568 | a call can be split after whole blocks without changing the output |
| Modes.CtrSplitIv | ext/TinyAES/aes.c:545-564 | the exact condition under which a split leaves the Iv of the undivided call |
| Modes.CtrRunCounters | ext/TinyAES/aes.c:537-568 | over any run of calls of any lengths the cipher is given iv, iv + 1, iv + 2, ..., each call taking its length over 16, rounded up |
| Modes.CtrRunTwice | ext/TinyAES/aes.c:537-568 | a second run of the same lengths from the same Iv restores every byte and leaves the same Iv |
| Modes.CountersDistinct | ext/TinyAES/aes.c:552-562 | n successive counters are pairwise different if and only if n <= 2^128 |
| Modes.CtrRunKeystreamDistinct | ext/TinyAES/aes.c:537-568 | over a run of at most 2^128 blocks all keystream blocks are different |
| AesContext.AesCtx.Init | ext/TinyAES/aes.c:219-222 | the context holds the expanded key; the Iv is left as it was |
| AesContext.AesCtx.InitIv | ext/TinyAES/aes.c:224-228 | the context holds the expanded key and the Iv |
| AesContext.AesCtx.EcbEncrypt | ext/TinyAES/aes.c:469-473 | the buffer becomes the cipher of what it was |
| AesContext.AesCtx.EcbDecrypt | ext/TinyAES/aes.c:475-479 | the buffer becomes the inverse cipher of what it was |
| AesContext.AesCtx.CbcEncryptBuffer | ext/TinyAES/aes.c:500-513 | the loop, whose Iv points into the buffer it rewrites, leaves in buf[0..length] the blocks that the CBC equations ask for, changes nothing after it, and leaves the last ciphertext block or the old Iv |
| AesContext.AesCtx.CbcDecryptBuffer | ext/TinyAES/aes.c:515-528 | the loop, which saves each block before overwriting it, satisfies the equations of CBC decryption |
| AesContext.AesCtx.CtrXcryptBuffer | ext/TinyAES/aes.c:537-568 | every byte is xored with its keystream byte as the CTR equations say, for every length; the Iv goes up by the blocks used, and the cipher is given exactly those counters |
| AesContext.AesCtx.IncrementIv | ext/TinyAES/aes.c:552-562 | the carry loop computes Increment and stops at the last byte below 255, or at -1 if there is none |
| AesContext.AesCtx.RenewKeystream | ext/TinyAES/aes.c:545-564 | a new keystream block is the cipher of the old Iv |
| AesContext.XorWithIv | ext/TinyAES/aes.c:491-498 | exclusive or of one block, also when Iv lies in the same array before it |
| JsonValues.PutSorted | ext/SimpleJSON/json.hpp:235-237 | object keys stay in strict order |
| JsonValues.PutThenLookup | ext/SimpleJSON/json.hpp:235-237 | what is assigned through operator[] is what it gives back, and the last assignment counts |
| JsonValues.KeyLessIsLexicographic | ext/SimpleJSON/json.hpp:55 | keys stand in lexicographic order: the first difference decides, a proper prefix comes first |
| JsonValues.JsonEscape | ext/SimpleJSON/json.hpp:28-42 | the loop writes each of the seven special characters as a backslash and its own letter and every other one as it is, each in its place |
| JsonValues.EscapingIs | ext/SimpleJSON/json.hpp:28-42 | that description fits one string only, the escaped one |
| JsonValues.EscapeChangesNothing | ext/SimpleJSON/json.hpp:28-42 | a string is its own escaped form if and only if it has none of the seven characters; else it grows by their number |
| JsonValues.EscapeIsPaired | ext/SimpleJSON/json.hpp:28-42 | no escaped string has a raw control character of the five, or a quote or backslash outside an escape pair |
| JsonValues.UnescapeEscape | ext/SimpleJSON/json.hpp:28-42 | escaping has an inverse |
| JsonValues.EscapeInjective | ext/SimpleJSON/json.hpp:28-42 | json_escape is injective |
| JsonValues.CanonicalKeyMeans | ext/SimpleJSON/json.hpp:289-292 | the readable test for a canonical key holds if and only if json_escape produces the key |
| JsonValues.StolOfLong | ext/SimpleJSON/json.hpp:370-371 | the decimal text of every long is read back as that long |
| JsonValues.DecimalDigits | ext/SimpleJSON/json.hpp:370-371 | the k-th digit from the right is the coefficient of 10^k, with no leading zero |
| JsonValues.StolIs | ext/SimpleJSON/json.hpp:596 | stol reads an optional sign and the digits, ignores what follows, and throws outside 64 bits |
| JsonValues.StolWithoutDigits | ext/SimpleJSON/json.hpp:596 | without digits it throws |
| JsonParser.TokenClasses | ext/SimpleJSON/json.hpp:444-446 | the characters that are space, digit, hexadecimal digit and delimiter, one by one |
| JsonParser.LettersMean | ext/SimpleJSON/json.hpp:518-541 | what each letter after a backslash stands for; any other leaves a backslash |
| JsonParser.ParsedIsReturnable | ext/SimpleJSON/json.hpp:448-641 | on every text, also malformed, a value the parser returns has its keys in order and canonical, its integers in range, and no NUL unless the text has one |
| JsonReader.ConsumeWs | ext/SimpleJSON/json.hpp:444-446 | the offset stops at the first character that is no space |
| JsonReader.ReadObject | ext/SimpleJSON/json.hpp:448-482 | the loop that fills an object ends as the specification says, on every text |
| JsonReader.ReadArray | ext/SimpleJSON/json.hpp:484-511 | the loop that fills an array likewise |
| JsonReader.ReadString | ext/SimpleJSON/json.hpp:513-549 | the string loop with its escapes likewise |
| JsonReader.ReadNumber | ext/SimpleJSON/json.hpp:551-599 | the number loop likewise, for integers |
| JsonReader.ReadBool | ext/SimpleJSON/json.hpp:601-613 | true, false, or null without moving |
| JsonReader.ReadNull | ext/SimpleJSON/json.hpp:615-623 | null, or null without moving |
| JsonReader.ReadNext | ext/SimpleJSON/json.hpp:625-641 | the mutually recursive parser terminates on every text, ends with OutOfBounds instead of reading past the terminator, and returns what the specification says |
| JsonReader.LoadText | ext/SimpleJSON/json.hpp:644-647 | Load is the parser from offset 0 |
| JsonGrammar.ParsesLiteral | ext/SimpleJSON/json.hpp:513-549 | a string literal is read exactly, whatever follows |
| JsonGrammar.ParsesTree | ext/SimpleJSON/json.hpp:441-642 | a well-formed text, wherever it stands, gives its value and the offset exactly behind it; a number needs a delimiter after it |
| JsonGrammar.LoadsText | ext/SimpleJSON/json.hpp:644-647 | Load gives the value of every well-formed text that is not a bare number |
| JsonGrammar.WordsMean | ext/SimpleJSON/json.hpp:601-623 | the three words give their values |
| JsonGrammar.LetterStandsFor | ext/SimpleJSON/json.hpp:518-526 | a literal of one escape pair is read as the one character it stands for |
| JsonGrammar.UnicodeStaysText | ext/SimpleJSON/json.hpp:527-539 | a \u escape is read as the six characters it is written with |
| JsonGrammar.ElementsMean | ext/SimpleJSON/json.hpp:494-508 | an array text has the values of its elements in order |
| JsonGrammar.PairsMean | ext/SimpleJSON/json.hpp:457-479 | an object text has under every key the value of the last pair with that key |
| JsonGrammar.LayoutIsIrrelevant | ext/SimpleJSON/json.hpp:444-511 | two texts that differ only in whitespace between tokens load as the same value |
| JsonErrors.BrokenArray | ext/SimpleJSON/json.hpp:504-507 | an array that goes on wrongly is given up, whatever was read of it |
| JsonErrors.BrokenKey | ext/SimpleJSON/json.hpp:460-463 | an object ends at a key without a colon and keeps the members before |
| JsonErrors.BrokenMember | ext/SimpleJSON/json.hpp:475-478 | an object that goes on wrongly after a value ends there and keeps that member |
| JsonErrors.UnknownStart | ext/SimpleJSON/json.hpp:636-640 | a character that starts no value gives null without moving |
| JsonErrors.UnknownWord | ext/SimpleJSON/json.hpp:607-619 | a word that is none of the three gives null without moving |
| JsonErrors.UnfinishedNumber | ext/SimpleJSON/json.hpp:584-587 | digits without a delimiter behind them give null, one character further than the unexpected one |
| JsonErrors.UnknownLetter | ext/SimpleJSON/json.hpp:540 | an escape without meaning leaves its backslash |
| JsonErrors.BrokenUnicode | ext/SimpleJSON/json.hpp:527-536 | a \u without four hexadecimal digits gives the empty string and leaves the offset on the u |
| JsonPrinter.PadLoop | ext/SimpleJSON/json.hpp:338-339 | the padding is `tab` repeated `depth` times |
| JsonPrinter.PadIsTabs | ext/SimpleJSON/json.hpp:338-339 | the padding is cut into `depth` pieces, each of them `tab` |
| JsonPrinter.Indentation | ext/SimpleJSON/json.hpp:352 | with the default tab members stand 2 * depth spaces in, the closing brace two less |
| JsonPrinter.ObjectLayout | ext/SimpleJSON/json.hpp:344-354 | an object prints as braces around one line for each member, with its indentation, key and value, joined by commas and line breaks |
| JsonPrinter.ArrayLayout | ext/SimpleJSON/json.hpp:355-365 | an array prints as brackets around its elements joined by a comma and a space |
| JsonPrinter.ScalarsPrinted | ext/SimpleJSON/json.hpp:342-373 | null, true, false and decimal numbers |
| JsonPrinter.DumpLoop | ext/SimpleJSON/json.hpp:337-378 | the accumulating loops, with the flag that skips the first separator, print the specified text |
| JsonRoundTrip.EscapedStringParses | ext/SimpleJSON/json.hpp:513-549 | parse_string on a quoted escaped string returns the string and stops behind the closing quote, whatever follows |
| JsonRoundTrip.TreeRendersDump | ext/SimpleJSON/json.hpp:337-378 | what dump prints of a value with canonical keys is a text of the grammar |
| JsonRoundTrip.FramedRoundTrip | ext/SimpleJSON/json.hpp:337-641 | at every place, depth and blank tab, the printed text of a value with canonical keys is read back as that value and reading stops exactly behind it |
| JsonRoundTrip.LoadOfDump | ext/SimpleJSON/json.hpp:337-647 | Load(dump(v)) is v if and only if every key of v is canonical and v is not a bare number |
| JsonRoundTrip.BareNumberIsLost | ext/SimpleJSON/json.hpp:584-587 | Load of a bare number gives null |
| JsonRoundTrip.RawKeyIsLost | ext/SimpleJSON/json.hpp:349 | an object with a line break in a key is not loaded back |
| JsonRoundTrip.ReloadIsStable | ext/SimpleJSON/json.hpp:466 | printing and loading again what was loaded from any text changes nothing, bare numbers apart |
| JsonObjects.JSON.ClearInternal | ext/SimpleJSON/json.hpp:407-414 | deletes every payload of the tree, each while it is live, and nothing else |
| JsonObjects.JSON.SetType | ext/SimpleJSON/json.hpp:383-400 | nothing changes if the tag is the same; else the value becomes null, {}, [], "", 0 or false, in a new payload where one is needed |
| JsonObjects.JSON.CopyContent | ext/SimpleJSON/json.hpp:123-143 | a copy has the value of the original and shares no object with it |
| JsonObjects.JSON.AssignCopy | ext/SimpleJSON/json.hpp:145-167 | copy assignment: the value of the argument, in new objects; the argument keeps its own |
| JsonObjects.JSON.AssignMove | ext/SimpleJSON/json.hpp:114-121 | move assignment: the target takes over the argument's objects, the argument is null |
| JsonObjects.JSON.AssignLong | ext/SimpleJSON/json.hpp:220-223 | the object holds that integer and owns no payload |
| JsonObjects.JSON.AssignString | ext/SimpleJSON/json.hpp:230-233 | the object holds that string |
| JsonObjects.JSON.At | ext/SimpleJSON/json.hpp:235-243 | operator[] refers to the member or element, made as null if missing, in the tree of the object |
| JsonObjects.JSON.MapAt | ext/SimpleJSON/json.hpp:235-237 | a missing key is inserted in its place, cells keep their identity |
| JsonObjects.JSON.Resize | ext/SimpleJSON/json.hpp:239-243 | the array is filled up with nulls |
| JsonObjects.JSON.AppendCopy | ext/SimpleJSON/json.hpp:205-208 | append adds a copy of the argument at the end |
| JsonObjects.JSON.Mutate | ext/SimpleJSON/json.hpp:114-243 | an assignment or append through any chain of operator[] changes the value at that path and no other, and the owned objects are still a tree |
| JsonObjects.JSON.MutateFrom | ext/SimpleJSON/json.hpp:114-243 | the same when the argument is a part of another value, reached through a chain of its own |
| JsonObjects.JSON.MutateWithin | ext/SimpleJSON/json.hpp:114-243 | the same when the argument is another part of the same value, neither containing the target nor in it |
| JsonStatements.ChildTwice | ext/SimpleJSON/json.hpp:235-243 | what is put at a key or index is found there, and the last put counts |
| JsonStatements.OtherChild | ext/SimpleJSON/json.hpp:235-243 | puts at different keys, or different indices, commute and leave each other's values |
| JsonStatements.KeyedObject | ext/SimpleJSON/json.hpp:235-237 | an object gets the one member more or changed; anything else becomes an object with that member |
| JsonStatements.IndexedArray | ext/SimpleJSON/json.hpp:239-243 | an array grows to the index with nulls; the other elements stay |
| JsonStatements.SetThenValue | ext/SimpleJSON/json.hpp:235-243 | what is assigned at the end of a chain of operator[] is read there |
| JsonStatements.SetElsewhere | ext/SimpleJSON/json.hpp:235-243 | what a chain refers to that parts from it at another key or another index stays as it is |
| JsonStatements.StatementEffect | ext/SimpleJSON/json.hpp:114-243 | after a statement the target reads as the scalar, as what the argument was, or as the old array and it; the argument reads as before, or as null when moved from |
| JsonStatements.StatementLeaves | ext/SimpleJSON/json.hpp:114-243 | variables that a statement does not name keep their values |
| JsonObjects.Execute | ext/SimpleJSON/json.hpp:45-419 | one statement on variables that share nothing leaves variables that share nothing, with the values of value semantics |
| JsonObjects.Run | ext/SimpleJSON/json.hpp:45-419 | the same over any run of statements: every tag names a live payload, the payloads form trees, distinct values share nothing |
| JsonStatements.CopyLivesApart | ext/SimpleJSON/json.hpp:109-182 | after a copy no run of statements on one of the two values shows in the other |
| JsonObjects.HeldIsWellFormed | ext/SimpleJSON/json.hpp:47-60 | every value a JSON object can hold has its keys in order and its integers in range, so the round-trip results apply to it |
| Cryptor.Encrypt | src/PasstoreLib/Security/Cryptor.cpp:17-34 | the string, a zero and zero padding, encrypted by the CBC equations with the AES-128 schedule of the first sixteen bytes of the key material and the other sixteen as Iv; from 2^32 bytes on only the remainder modulo 2^32 is encrypted and the rest stays plain; key material of another size is refused |
| Cryptor.Decrypt | src/PasstoreLib/Security/Cryptor.cpp:36-54 | the data, padded to blocks, decrypted by the CBC equations with the same schedule and Iv, up to the same length |
| Cryptor.EncryptedIsStandard | src/PasstoreLib/Security/Cryptor.cpp:17-34 | that description fits one blob only |
| Cryptor.DecryptedIsStandard | src/PasstoreLib/Security/Cryptor.cpp:36-54 | and so for decryption |
| Cryptor.EncryptedBlock | src/PasstoreLib/Security/Cryptor.cpp:33 | below 2^32 bytes every block of the output is AES-128 of the padded data block xored with the output block before it |
| Cryptor.DecryptedEncrypted | src/PasstoreLib/Security/Cryptor.cpp:17-54 | decryption gives the string back with a zero and zero padding, also past the 2^32 bytes the length argument can express |
| Marshaling.MarshalValuesRecursively | src/PasstoreLib/Storages/Marshaling.cpp:17-31 | the loop fills one object per value, with its children if it has any |
| Marshaling.UnmarshalValuesRecursively | src/PasstoreLib/Storages/Marshaling.cpp:33-50 | the loop reads names, values and children; what is no array has none |
| Marshaling.MarshalIsWellFormed | src/PasstoreLib/Storages/Marshaling.cpp:53-62 | the document of every resource has its keys in order and canonical |
| Marshaling.MarshalMembers | src/PasstoreLib/Storages/Marshaling.cpp:53-62 | the document has the subject, and the values if there are any |
| Marshaling.MarshalValueMembers | src/PasstoreLib/Storages/Marshaling.cpp:22-28 | a value has its name under n, its value under v, and its children under c if there are any |
| Marshaling.NoObjectNoResource | src/PasstoreLib/Storages/Marshaling.cpp:64-69 | a text that loads as anything but an object gives an empty resource |
| Marshaling.MarshalledComesBackEscaped | src/PasstoreLib/Storages/Marshaling.cpp:53-69 | unmarshalling the marshalled text gives the resource with every string escaped once and every flag cleared |
| Marshaling.UnmarshalMarshal | src/PasstoreLib/Storages/Marshaling.cpp:53-69 | a resource comes back as it was if and only if no string has a quote, backslash, backspace, form feed, line feed, carriage return or tab and no value a flag |
| Marshaling.QuoteIsNotKept | src/PasstoreLib/Storages/Marshaling.cpp:45-46 | a value with a quote comes back with a backslash before it |
| Vault.MeasureText | src/PasstoreLib/Storages/Marshaling.cpp:73-81 | the loop finds the first zero byte |
| Vault.StoreResource | src/PasstoreLib/Storages/SQLite/SQLiteDatabase.cpp:163-167 | the stored blob is the text of the document, encrypted as Cryptor.Encrypt says |
| Vault.BytesOfString | src/PasstoreLib/Storages/SQLite/SQLiteDatabase.cpp:17-20 | every character is passed on as the byte of its number |
| Vault.FetchResource | src/PasstoreLib/Storages/SQLite/SQLiteDatabase.cpp:128-132 | decrypting, cutting at the first zero, loading and unmarshalling a blob computes what the specification says, for every blob and every key material |
| Vault.FetchedWhenNulFree | src/PasstoreLib/Storages/SQLite/SQLiteDatabase.cpp:128-132 | a resource without NULs is fetched as marshalling keeps it |
| Vault.FetchedNulFree | src/PasstoreLib/Storages/Marshaling.cpp:71-84 | nothing fetched from any blob has a NUL |
| Vault.FetchedStored | src/PasstoreLib/Storages/SQLite/SQLiteDatabase.cpp:116-168 | storing and fetching gives a resource back if and only if no string in it has a NUL or one of those seven characters and no value in it a flag |

## Left out

- JSON numbers with a fraction or an exponent: `dump` loses digits of a double, and the exponent branch of `parse_number` skips characters; the parser model ends with the outcome NotIntegral there.
- Meaning of `\u` escapes: the parser keeps them as literal text, and so does the model; no claim about Unicode.
- The words and destination of error messages.
- `isspace` on characters above 127, which C++ leaves undefined for a signed char; the model takes them for no space.
- Width of `long`: 64 bits, as on LP64 platforms; on others `std::stol` throws earlier.
- Depth counters: `depth + 1` in `dump`, the recursion depth of the parser and the `unsigned` index of `operator[]` and `parse_array` are unbounded here.
- The JSON class: construction from an initializer list, the move constructor beside move assignment, `append` with several arguments, the const accessors and iterators. Where a statement has two chains of `operator[]`, the argument's is evaluated first, as C++17 orders an assignment. Two paths that part with a key on one side and an index on the other destroy what one of them refers to; such statements are excluded, like those whose argument contains the target or lies in it.
- The bridge from JSON objects to the parser and printer: these work on values here, while the C++ functions work on objects; JsonObjects proves that objects behave as their values.
- `std::map` and `std::deque` themselves: keys and cells in order, a search from the front.
- JsonReader.ReadMember, JsonObjects.JSON.CopyCell, AesContext.AesCtx.UnchainBlock, AesBlock.MixColumn, Cryptor.EncryptInPlace and similar members are loop bodies of the source made methods of their own; they have no counterpart there.
- AesContext.AesCtx.CbcEncryptBuffer: the buffer is a different array from the context's two, which the source leaves to its callers; with length 0 the final memcpy copies the Iv onto itself, which the model takes as no change.
- AesContext.AesCtx.CbcDecryptBuffer: the length is a multiple of 16, as the header demands; so for encryption.
- The 8-bit round counter of the cipher loops: the round count is any number from 1 on in the model.
- Key and Iv pointers are values; aliasing of the key with the context is not modelled.
- Cryptor: key generation, the keys read from the database, wiping and locking of memory, all claims about secrecy and timing.
- Marshaling: the id of a resource, and unmarshalling into a resource that already has values, to which the source appends.
- Vault.FetchedStored: a string holds characters below 256, the bytes of a `std::string`; the database hands back the blob it was given, SQL is not part of this model.
- Table settings, SHA-256, password derivation, the user interface and its libraries.
