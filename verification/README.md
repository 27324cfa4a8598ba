# Verified models of the application's algorithms and protocols

The project models, in Dafny, the parts of the application that carry hard properties, and proves those
properties for all inputs, runs and reachable states. `dafny verify dfyconfig.toml` checks everything.

Two groups of code are modelled.

**Algorithms in the JavaScript bundle that the server ships.** All its code is on one line of one file, so
the table below cites that line and names the webpack module or the function.

- `Bitmaps`, `HashTrie`, `HashTrieProofs`, `HashTrieUpdate`, `HashTrieLoops`, `ImmutableMap`: the persistent
  hash-array-mapped trie of module 3393, with its five node kinds. A node is a datatype, an update returns a
  new one. The loops are methods proved against the functions that the proofs are about.
- `YamlText`, `YamlReader`, `YamlLoader`, `YamlRoundTrip`: the double-quoted printer and reader of the YAML
  library. The reader is an object whose methods move its position. `YamlScalars` says what a double-quoted
  scalar is and stands for without a reader; `YamlFolding`, `YamlReading` and `YamlStandard` prove that the
  reader takes exactly those, and where it agrees with the standard, and `YamlPrinting` what the printer writes.
- `Scheduler`, `SchedulerQueue`: the `nextTick` queue of module 4155, as a step relation over task calls,
  returns, throws and timers, and as an object whose `drainQueue` loops run tasks that follow a script.
- `StreamingHash`, `Words`, `Sha512`, `Sha512Hash`, `Sha512Constants`: the block buffer of module 4189 and
  SHA-512 on 32-bit halves of module 8862. A word is its sequence of bits, so a signed and an unsigned
  JavaScript integer with the same bits are the same word, and `| 0` keeps the low 32 bits of a sum.
- `Bytes`, `Utf8`, `IntegerCodec`, `Base64`, `Base64Decoding`: the codecs of modules 8764 and 9742. Shifts, masks and
  disjunctions of disjoint bits are written as quotients, remainders and sums.

**The application's own protocols.**

- `Sessions`, `SessionSafety`, `SessionHistory`, `AuthService`, `SessionReset`: session tokens in Redis with
  Postgres as the fallback. Calls are processes that interleave at every store call; a store call succeeds,
  fails, or takes effect and reports an error. The service's methods, each called alone, are proved to do what
  their process does, and the handlers that end and create sessions are built from them.
- `EmailTokens`, `EmailTokenSafety`, `EmailTokenHistory`, `EmailTokenUse`, `EmailServer`: verification,
  magic-link and reset tokens through the services and handlers, each handler call being one event whose writes
  may fail.
- `RateLimit`: the fixed-window limiter and the sharp bound on what it serves.
- `Csrf`: the middleware's double-submit check and the browser client with its one retry.
- `Hosts`, `HostSanitizer`, `HostForms`, `UriAuthority`: the host sanitizer behind the base URL, what it takes,
  and when that URL is one.
- `HtmlEscape`: the escaper of the pages.

`Options`, `CodeUnits` and `Stores` hold what several of them share.

What is taken from the environment: hashes of tokens are injective and new tokens are fresh; Redis and
Postgres act atomically on one clock; equal trie keys have equal hashes; an IP literal of the Go library is
made of hexadecimal digits, dots and colons and has not exactly one colon, and with colons it is an IPv6
address; trimming and lowering leave printable ASCII text without capitals alone, lowering leaves no capitals,
and neither adds a first colon or removes the last one; for `HostForms` also, lowering turns the capitals of
printable ASCII text into small letters; a new session row gets a number of its own.

Results that differ from what the code's names and comments suggest:

- `DeleteAllUserSessions` is called to invalidate all sessions of a user, but it finds hashes only in
  Postgres rows, which are written only when Redis fails. It also drops the errors of its deletions in Redis,
  and it never asks `rows.Err()`, so that a query cut short counts as complete and the rows it did not read
  are deleted without their keys; either way it can report success. `AuthService.DeleteAllIsCompleteIff` gives
  the exact condition, `AuthService.NewSessionSurvivesDeleteAll` the sessions it misses, and
  `SessionReset.SurvivesResetIff` those that outlive a password reset.
- A magic link whose account is marked as verified but cannot be read again ends in a nil dereference
  instead of a session (`EmailServer.Server.MagicLinkVerify`).
- The YAML reader keeps white space right before a folded line break, which sections 6.5 and 7.3.1 of YAML 1.2
  discard, and drops the empty lines after an escaped line break, which they turn into line feeds.
  `YamlStandard.FoldsAsStandardIff` shows that line folding differs in nothing else. An escape `\U` above 0x10FFFF,
  which is no code point, is read as whatever 16-bit units its arithmetic leaves (`YamlScalars.CodePointText`).
- The host sanitizer lets four kinds of text through that no URL may have as its authority: a signed port
  (`localhost:+80`), a bare IPv6 literal (`::1`), one before an empty port (`[::1]:`, which loses its brackets),
  and an IPv4 literal in brackets (`[1.2.3.4]`). `UriAuthority.BaseUrlHasAuthorityIff` shows that these are all.
- `readIntLE` and `readIntBE` do not reject a byte length of zero, and then return something made of a byte next
  to the place.
- The base64 decoder takes padding where a group of four would start, and then loses the group before it for two
  zero bytes (`Base64Decoding.DecodedIsStandard`).
- `DeleteSession` drops the error of the Redis deletion, so it can report success while the session stays live.
  `AuthService.LogoutIsCompleteIff` gives the exact condition.
- The UTF-8 encoder drops the last unit of a text that ends in two high surrogates instead of writing U+FFFD
  for it. `Utf8.EncodesAllIff` gives the exact condition.
- A rate-limit window below one second is cut to zero seconds and then limits nothing
  (`RateLimit.NoWindowNoLimit`); over one window up to 2 * limit - 1 requests are served
  (`RateLimit.BoundIsAttained`).

## Model

| member | source | states |
|---|---|---|
| `Bitmaps.PopCountIsRank` | web/static/swagger/swagger-ui-standalone-preset.js:2 | `popCount` of module 3393: the bit-parallel sum is the number of set bits of the bitmap, for every 32-bit word |
| `Bitmaps.SlotIsRank` | web/static/swagger/swagger-ui-standalone-preset.js:2 | the popcount of the bits below a position is the slot of its child among the occupied positions |
| `Bitmaps.SlotsOrdered` | web/static/swagger/swagger-ui-standalone-preset.js:2 | two occupied positions have slots in their own order, so no two children share a slot |
| `HashTrie.PathsDetermineHash` | web/static/swagger/swagger-ui-standalone-preset.js:2 | seven chunks of five bits determine a hash: different hashes differ in some chunk, which is why `mergeIntoNode` ends |
| `HashTrieProofs.RebuildIsRebuilt` | web/static/swagger/swagger-ui-standalone-preset.js:2 | inner-node update: after insertion, replacement, removal, expansion to an array node, packing back to a bitmap node or collapse to a leaf, the node keeps its shape and its children are the old ones with just the one slot changed |
| `HashTrieProofs.ExpandReplaces` | web/static/swagger/swagger-ui-standalone-preset.js:2 | `expandNodes`: the array node has the children of the bitmap node and the new one, and their exact count |
| `HashTrieProofs.PackReplaces` | web/static/swagger/swagger-ui-standalone-preset.js:2 | `packNodes`: the bitmap node has the children of the array node except the excluded one |
| `HashTrieProofs.KindAfter` | web/static/swagger/swagger-ui-standalone-preset.js:2 | a bitmap node becomes an array node exactly when it has sixteen children and gets another, an array node a bitmap node exactly when it has eight and loses one; and the exact count after each change |
| `HashTrieUpdate.MergeKeepsValid` | web/static/swagger/swagger-ui-standalone-preset.js:2 | `mergeIntoNode`: two leaves with different keys or hashes merge into a node that respects the hash path of every entry |
| `HashTrieUpdate.GetMerged` | web/static/swagger/swagger-ui-standalone-preset.js:2 | after `mergeIntoNode` each key has the binding it had in its leaf or the new one |
| `HashTrieUpdate.UpdateIsKept` | web/static/swagger/swagger-ui-standalone-preset.js:2 | the update of any hashed node keeps the node invariant, says exactly whether the value changed and how the size does, and never empties a node it should not |
| `HashTrieUpdate.GetAfterUpdate` | web/static/swagger/swagger-ui-standalone-preset.js:2 | after the update of any hashed node the updated key has its new binding and every other key its old one, hash collisions included |
| `ImmutableMap.GetCreated` | web/static/swagger/swagger-ui-standalone-preset.js:2 | `createNodes`: the hashed node built from a full array node has all its entries and the new one |
| `ImmutableMap.RootUpdate` | web/static/swagger/swagger-ui-standalone-preset.js:2 | one root update is reported as unchanged exactly when the binding is the wanted one, and reports a size change exactly when a binding appears or goes |
| `ImmutableMap.UpdateMapStep` | web/static/swagger/swagger-ui-standalone-preset.js:2 | `updateMap`: one set or remove changes the lookup of its key only |
| `ImmutableMap.TrieRefinesMap` | web/static/swagger/swagger-ui-standalone-preset.js:2 | main result: after every run of sets and removes from the empty map, for every hash function, `get` agrees with a plain map on every key |
| `ImmutableMap.SizeIsCardinality` | web/static/swagger/swagger-ui-standalone-preset.js:2 | main result: `size` is the number of bound keys of that plain map |
| `ImmutableMap.EmptyWithoutRoot` | web/static/swagger/swagger-ui-standalone-preset.js:2 | a map without root is the empty map |
| `ImmutableMap.RunIsWithinLimits` | web/static/swagger/swagger-ui-standalone-preset.js:2 | in every run every node keeps to its limits, one to eight entries, one to sixteen children, eight to thirty-two children, and the entry list of the root is hashed exactly when a ninth key comes |
| `HashTrieLoops.FindEntry` | web/static/swagger/swagger-ui-standalone-preset.js:2 | the entry loop of the leaf nodes finds the first entry with the key |
| `HashTrieLoops.CopyEntries` | web/static/swagger/swagger-ui-standalone-preset.js:2 | the entry array with one entry set, appended, or replaced by the last one |
| `HashTrieLoops.SpliceIn` | web/static/swagger/swagger-ui-standalone-preset.js:2 | the `spliceIn` loop inserts one element and shifts the rest |
| `HashTrieLoops.SpliceOut` | web/static/swagger/swagger-ui-standalone-preset.js:2 | the `spliceOut` loop removes one element and shifts the rest |
| `HashTrieLoops.ExpandNodes` | web/static/swagger/swagger-ui-standalone-preset.js:2 | the `expandNodes` loop over the bits of the bitmap computes the array node the proofs are about |
| `HashTrieLoops.PackNodes` | web/static/swagger/swagger-ui-standalone-preset.js:2 | the `packNodes` loop with its shifting bit computes the bitmap node the proofs are about |
| `HashTrieLoops.BuildNodes` | web/static/swagger/swagger-ui-standalone-preset.js:2 | the `createNodes` loop of updates |
| `HashTrieLoops.GetNode` | web/static/swagger/swagger-ui-standalone-preset.js:2 | `get` of the five node kinds, by bit test and popcount |
| `HashTrieLoops.RebuildBitmapNode` | web/static/swagger/swagger-ui-standalone-preset.js:2 | the bitmap node update with its collapse and expansion branches |
| `HashTrieLoops.RebuildArrayNode` | web/static/swagger/swagger-ui-standalone-preset.js:2 | the array node update with its packing branch |
| `YamlText.EscapeString` | web/static/swagger/swagger-ui-standalone-preset.js:2 | `escapeString`: the loop appends the piece of each code point, a surrogate pair being one |
| `YamlText.PaddedHexValue` | web/static/swagger/swagger-ui-standalone-preset.js:2 | `encodeHex`: the zero-padded digits have the width of the escape and read back as the number |
| `YamlPrinting.PieceIs` | web/static/swagger/swagger-ui-standalone-preset.js:2 | `escapeString` and `encodeHex`, character by character: as itself if section 5.1 of YAML 1.2 has it as printable and it has no letter and is no byte order mark, with its letter of section 5.7 if it has one, and else with two or four upper-case hexadecimal digits |
| `YamlPrinting.WrittenIsPrintable` | web/static/swagger/swagger-ui-standalone-preset.js:2 | what the printer writes has no character that the loader refuses as non-printable, lone surrogates included |
| `YamlLoader.ReaderState.SkipSeparationSpace` | web/static/swagger/swagger-ui-standalone-preset.js:2 | `skipSeparationSpace`, with and without comments: the place after it and the number of line breaks, white space and indentation tracked in the reader state |
| `YamlLoader.ReaderState.CaptureSegment` | web/static/swagger/swagger-ui-standalone-preset.js:2 | `captureSegment`: appends the raw segment, and fails exactly on a character that JSON, or without that check YAML, does not allow |
| `YamlLoader.ReaderState.ReadHex` | web/static/swagger/swagger-ui-standalone-preset.js:2 | the hexadecimal loop of an escape: the 32-bit shifted value, or failure at the first other character |
| `YamlLoader.ReaderState.ReadEscape` | web/static/swagger/swagger-ui-standalone-preset.js:2 | what follows a backslash: line continuation, simple escape, hexadecimal escape or error |
| `YamlLoader.ReaderState.ReadDoubleQuotedScalar` | web/static/swagger/swagger-ui-standalone-preset.js:2 | the reader method finishes exactly where a scalar of the grammar stands in quotes, with what that scalar stands for as its result and its place just after the closing quote; every other outcome and its message is that of the scanning function |
| `YamlLoader.ReaderState.WriteFoldedLines` | web/static/swagger/swagger-ui-standalone-preset.js:2 | `writeFoldedLines`: nothing for no line break, a space for one, one line feed less than there are for more |
| `YamlScalars.EscapesAreStandard` | web/static/swagger/swagger-ui-standalone-preset.js:2 | `simpleEscapeSequence` and the lengths of `x`, `u` and `U` are the table of section 5.7 of YAML 1.2, letter by letter, and each escape the printer has is one of it with the same character |
| `YamlScalars.DigitsAreHexadecimal` | web/static/swagger/swagger-ui-standalone-preset.js:2 | `fromHexCode`: the value of each hexadecimal digit of either case, and of no other character |
| `YamlScalars.DigitsAreUpperCase` | web/static/swagger/swagger-ui-standalone-preset.js:2 | `encodeHex`: the digits it writes are 0 to 9 and A to F, and read back as themselves |
| `YamlScalars.CodePointIsWritten` | web/static/swagger/swagger-ui-standalone-preset.js:2 | `charFromCodepoint`: a code point up to 0x10FFFF becomes its UTF-16 text |
| `YamlFolding.GapIsSkipped` | web/static/swagger/swagger-ui-standalone-preset.js:2 | skipping white space and line breaks ends at the first other character and counts the line breaks, CR LF being one |
| `YamlReading.HexReadWide` | web/static/swagger/swagger-ui-standalone-preset.js:2 | up to eight hexadecimal digits read by shifting are their number as a signed 32-bit integer |
| `YamlReading.ReadsExactlyScalars` | web/static/swagger/swagger-ui-standalone-preset.js:2 | main result: reading finishes if and only if a scalar stands there in quotes: plain characters, escapes of section 5.7, line breaks folded as in section 6.5, escaped line breaks, no document separator at a line start; its result is what the scalar stands for |
| `YamlStandard.TwoLinesAreRead` | web/static/swagger/swagger-ui-standalone-preset.js:2 | plain text, a gap of line breaks and white space, plain text: read as the two with a space between them for one line break, one line feed less for more, and nothing for an escaped one |
| `YamlStandard.FoldsAsStandardIff` | web/static/swagger/swagger-ui-standalone-preset.js:2 | main result: what is read is what section 7.3.1 of YAML 1.2 says if and only if no white space stands right before a folded line break and no empty line follows an escaped one |
| `YamlStandard.TrailingSpaceIsKept` | web/static/swagger/swagger-ui-standalone-preset.js:2 | a scalar whose first line ends in a space, which is kept |
| `YamlStandard.EscapedEmptyLineIsLost` | web/static/swagger/swagger-ui-standalone-preset.js:2 | a scalar with an empty line after an escaped line break, which is lost |
| `YamlRoundTrip.HexReadIsValue` | web/static/swagger/swagger-ui-standalone-preset.js:2 | up to four hexadecimal digits read by shifting are the number they stand for |
| `YamlRoundTrip.ScanEscaped` | web/static/swagger/swagger-ui-standalone-preset.js:2 | from any place inside the scalar, scanning the escaped rest of a string up to its quote adds exactly that rest |
| `YamlRoundTrip.RoundTrip` | web/static/swagger/swagger-ui-standalone-preset.js:2 | main result: for every sequence of UTF-16 code units, anywhere in an input, reading what the printer wrote consumes exactly that text, raises no error and yields the string |
| `Scheduler.AfterTaskIsSound` | web/static/swagger/swagger-ui-standalone-preset.js:2 | module 4155: when a task returns, the next pending task starts, or the drain ends, cancels its clean-up timer and leaves nothing pending |
| `Scheduler.FireIsSound` | web/static/swagger/swagger-ui-standalone-preset.js:2 | firing the pending timer starts exactly the first pending task, after a throw the one after the thrower |
| `Scheduler.StepIsSound` | web/static/swagger/swagger-ui-standalone-preset.js:2 | every step of `nextTick`, `drainQueue` and `cleanUpNextTick` keeps the timer invariant and loses, repeats or reorders no task |
| `Scheduler.StartedInOrder` | web/static/swagger/swagger-ui-standalone-preset.js:2 | main result: in every run the started tasks are a prefix of the enqueued ones, each at most once and in order |
| `Scheduler.NoLostWakeup` | web/static/swagger/swagger-ui-standalone-preset.js:2 | main result: when nothing runs and tasks are left, exactly one timer is pending, of the right kind, and firing it starts the next task |
| `Scheduler.ThrowIsResumed` | web/static/swagger/swagger-ui-standalone-preset.js:2 | main result: after a throw the clean-up timer of that drain is pending and resumes just after the thrower |
| `Scheduler.EveryTaskRuns` | web/static/swagger/swagger-ui-standalone-preset.js:2 | main result: without further enqueuing, whichever tasks throw, letting the pending timer fire starts all tasks and leaves the scheduler idle |
| `SchedulerQueue.PlayIsRun` | web/static/swagger/swagger-ui-standalone-preset.js:2 | a drain whose tasks follow a script is a run of the step relation, so the run theorems hold of it |
| `SchedulerQueue.Queue.NextTick` | web/static/swagger/swagger-ui-standalone-preset.js:2 | `nextTick` changes the queue and sets a drain timer exactly for the first task of a queue not being drained |
| `SchedulerQueue.Queue.RunBatch` | web/static/swagger/swagger-ui-standalone-preset.js:2 | the inner loop of `drainQueue`, with tasks that enqueue and throw, does what the step relation does |
| `SchedulerQueue.Queue.Drain` | web/static/swagger/swagger-ui-standalone-preset.js:2 | the outer loop of `drainQueue` does what the step relation does, for every script of task behaviours |
| `SchedulerQueue.Queue.CleanUp` | web/static/swagger/swagger-ui-standalone-preset.js:2 | `cleanUpNextTick` puts the interrupted batch back in front and drains again |
| `SchedulerQueue.Queue.FireTimer` | web/static/swagger/swagger-ui-standalone-preset.js:2 | a fired timer is removed and runs its callback |
| `StreamingHash.ZerosNeeded` | web/static/swagger/swagger-ui-standalone-preset.js:2 | module 4189: the zero bytes of the padding bring the message to the final size modulo the block size, and are fewer than a block |
| `StreamingHash.CompressedSplits` | web/static/swagger/swagger-ui-standalone-preset.js:2 | compressing whole blocks and then the rest is compressing the whole |
| `StreamingHash.Hash.Fill` | web/static/swagger/swagger-ui-standalone-preset.js:2 | one turn of the `update` loop: what the buffer and the state then stand for |
| `StreamingHash.Hash.Update` | web/static/swagger/swagger-ui-standalone-preset.js:2 | `update` extends the message by the data, however it meets the block boundaries |
| `StreamingHash.Hash.WriteLength` | web/static/swagger/swagger-ui-standalone-preset.js:2 | the two branches that write the length, for lengths whose bits are an exact double |
| `StreamingHash.Hash.Digest` | web/static/swagger/swagger-ui-standalone-preset.js:2 | main result: through `digest` the compression function has been applied to exactly the padded message of sections 5.1.1 and 5.1.2 of FIPS 180-4, for all block and final sizes with at least eight bytes of length |
| `StreamingHash.DigestOfParts` | web/static/swagger/swagger-ui-standalone-preset.js:2 | the digest does not depend on how the message is split between `update` calls |
| `StreamingHash.PaddedIsInjective` | web/static/swagger/swagger-ui-standalone-preset.js:2 | different messages have different padded messages |
| `StreamingHash.PaddedIsStandard` | web/static/swagger/swagger-ui-standalone-preset.js:2 | the padded message byte by byte: whole blocks, the message, a byte 128, fewer zeros than a block, and the length in bits |
| `Words.RegistersAdd` | web/static/swagger/swagger-ui-standalone-preset.js:2 | `getCarry`: adding two pairs of 32-bit halves, the carry found by comparing the low sum with either term, adds 64-bit words modulo 2^64 |
| `Sha512.ChOfHalves` | web/static/swagger/swagger-ui-standalone-preset.js:2 | `Ch` on halves is Ch of section 4.1.3 of FIPS 180-4 |
| `Sha512.MajOfHalves` | web/static/swagger/swagger-ui-standalone-preset.js:2 | `maj` on halves is Maj, though written with other operations |
| `Sha512.Sigma0OfHalves` | web/static/swagger/swagger-ui-standalone-preset.js:2 | `sigma0` with swapped halves is the upper-case sigma 0 |
| `Sha512.Sigma1OfHalves` | web/static/swagger/swagger-ui-standalone-preset.js:2 | `sigma1` with swapped halves is the upper-case sigma 1 |
| `Sha512.Gamma0OfHalves` | web/static/swagger/swagger-ui-standalone-preset.js:2 | `Gamma0` and `Gamma0l` are the lower-case sigma 0 |
| `Sha512.Gamma1OfHalves` | web/static/swagger/swagger-ui-standalone-preset.js:2 | `Gamma1` and `Gamma1l` are the lower-case sigma 1 |
| `Sha512.BlockWord` | web/static/swagger/swagger-ui-standalone-preset.js:2 | two `readInt32BE` halves are the big-endian 64-bit word of the block |
| `Sha512.ScheduleNextIs` | web/static/swagger/swagger-ui-standalone-preset.js:2 | the schedule expression on halves, its terms added in another order, is that of the standard |
| `Sha512.ScheduleBlock` | web/static/swagger/swagger-ui-standalone-preset.js:2 | the two schedule loops fill the work array with the message schedule |
| `Sha512Hash.RoundOfHalves` | web/static/swagger/swagger-ui-standalone-preset.js:2 | one turn of the 80-round loop is one round of section 6.4.2 of FIPS 180-4 |
| `Sha512Hash.BlocksThroughRegisters` | web/static/swagger/swagger-ui-standalone-preset.js:2 | compressing the blocks on the registers is compressing them on the chaining values the registers hold |
| `Sha512Hash.Hasher.Update` | web/static/swagger/swagger-ui-standalone-preset.js:2 | main result: `_update` of module 8862 takes the registers through the compression function of the standard, for every block and chaining value |
| `Sha512Hash.HashBytes` | web/static/swagger/swagger-ui-standalone-preset.js:2 | `_hash` writes the eight words most significant byte first |
| `Sha512Hash.Digest` | web/static/swagger/swagger-ui-standalone-preset.js:2 | main result: for every split of a message into `update` calls, through the block buffer of module 4189 and the registers, `digest` returns the SHA-512 digest of the joined parts |
| `Sha512Constants.FirstPrimes` | web/static/swagger/swagger-ui-standalone-preset.js:2 | the listed numbers are in order, and below the bound the primes are exactly the listed ones |
| `Sha512Constants.ConstantsAreStandard` | web/static/swagger/swagger-ui-standalone-preset.js:2 | entry t of the table of module 8862 is the first 64 bits of the fractional part of the cube root of prime t, for all eighty, and word t of the initial value that of the square root, for the first eight |
| `Utf8.Utf8ToBytes` | web/static/swagger/swagger-ui-standalone-preset.js:2 | module 8764: the encoder loop with its waiting high surrogate writes the encodings of the characters it emits, one after the other, up to the first that exceeds the limit |
| `Utf8.LimitKeepsMost` | web/static/swagger/swagger-ui-standalone-preset.js:2 | without a limit all emitted characters are encoded, and under one the longest run of whole characters that fits |
| `Utf8.EncodesAllIff` | web/static/swagger/swagger-ui-standalone-preset.js:2 | the encoder emits every character, lone surrogates as U+FFFD, if and only if the text does not end in two high surrogates; otherwise it drops the last one |
| `Utf8.AcceptsExactly` | web/static/swagger/swagger-ui-standalone-preset.js:2 | the decoder accepts exactly the byte sequences of section 4 of RFC 3629 |
| `Utf8.AcceptedIsEncoded` | web/static/swagger/swagger-ui-standalone-preset.js:2 | what the decoder accepts is the encoding (section 3 of RFC 3629) of what it returns |
| `Utf8.EncodedIsAccepted` | web/static/swagger/swagger-ui-standalone-preset.js:2 | the encoding of every character is accepted as that character |
| `Utf8.StandardBits` | web/static/swagger/swagger-ui-standalone-preset.js:2 | section 3 of RFC 3629: how many bytes each character has, how each is marked, and that the bits after the marks are the character |
| `Utf8.SequenceIsDecoded` | web/static/swagger/swagger-ui-standalone-preset.js:2 | a byte sequence of the grammar is decoded as the character it encodes, whatever follows |
| `Utf8.OtherByteIsReplaced` | web/static/swagger/swagger-ui-standalone-preset.js:2 | where no sequence of the grammar starts, exactly one byte is decoded, as U+FFFD |
| `Utf8.LoneSurrogateIsReplaced` | web/static/swagger/swagger-ui-standalone-preset.js:2 | a surrogate without its partner becomes the three bytes of U+FFFD |
| `Utf8.DecodeOfEncode` | web/static/swagger/swagger-ui-standalone-preset.js:2 | decoding undoes encoding on every sequence of characters |
| `Utf8.EncodeOfDecode` | web/static/swagger/swagger-ui-standalone-preset.js:2 | encoding undoes decoding on all valid UTF-8 |
| `Utf8.EncodedIsUtf8` | web/static/swagger/swagger-ui-standalone-preset.js:2 | the encoder writes valid UTF-8 only |
| `Utf8.Utf8Slice` | web/static/swagger/swagger-ui-standalone-preset.js:2 | `utf8Slice` on arbitrary bytes and bounds ends and returns the code units of the decoded characters |
| `Utf8.DecodeCodePointsArray` | web/static/swagger/swagger-ui-standalone-preset.js:2 | joining chunks of 4096 units changes nothing, even across a surrogate pair |
| `Utf8.RoundTripIff` | web/static/swagger/swagger-ui-standalone-preset.js:2 | main result: decoding the encoding of a text gives the text if and only if it is well-formed UTF-16, and else its characters with lone surrogates replaced, but for a dropped last one |
| `IntegerCodec.ByteIs` | web/static/swagger/swagger-ui-standalone-preset.js:2 | byte i of the two's complement is floor(v / 256^i) modulo 256 |
| `IntegerCodec.NextByte` | web/static/swagger/swagger-ui-standalone-preset.js:2 | the truncating division less the sticky borrow is the floor, for every value and every byte |
| `IntegerCodec.SignedOfTwos` | web/static/swagger/swagger-ui-standalone-preset.js:2 | decoding undoes encoding on every value that fits n bytes |
| `IntegerCodec.TwosOfSigned` | web/static/swagger/swagger-ui-standalone-preset.js:2 | encoding undoes decoding on all bytes, and every decoded value fits |
| `IntegerCodec.WrittenIsRead` | web/static/swagger/swagger-ui-standalone-preset.js:2 | what either writer leaves in a buffer, the reader of its byte order reads back |
| `IntegerCodec.WriteIntLE` | web/static/swagger/swagger-ui-standalone-preset.js:2 | `writeIntLE`: writes the bytes least significant first, or nothing when value or place is out of range |
| `IntegerCodec.WriteIntBE` | web/static/swagger/swagger-ui-standalone-preset.js:2 | `writeIntBE`: the same bytes, most significant first |
| `IntegerCodec.ReadIntLE` | web/static/swagger/swagger-ui-standalone-preset.js:2 | `readIntLE`: the signed number of the bytes, an error beyond the buffer, and without bytes the one at hand less one if its first bit is set |
| `IntegerCodec.ReadIntBE` | web/static/swagger/swagger-ui-standalone-preset.js:2 | `readIntBE`: the same for bytes most significant first; without bytes it looks at the one before its place |
| `Base64.EncodedIsStandard` | web/static/swagger/swagger-ui-standalone-preset.js:2 | module 9742: the output stands for the bits of all bytes six at a time, as in section 4 of RFC 4648, and padding makes its length a multiple of four |
| `Base64.CharactersAreStandard` | web/static/swagger/swagger-ui-standalone-preset.js:2 | section 4 of RFC 4648, character by character: the i-th one is the letter of the i-th six bits, A to Z, a to z, 0 to 9, plus and slash, and the rest is equals signs |
| `Base64.LookupIs` | web/static/swagger/swagger-ui-standalone-preset.js:2 | the decoder reads each of those letters as its six bits, minus and underscore as plus and slash, and everything else as zero |
| `Base64.EncodeChunk` | web/static/swagger/swagger-ui-standalone-preset.js:2 | `encodeChunk` encodes its whole groups of three bytes |
| `Base64.EncodeWhole` | web/static/swagger/swagger-ui-standalone-preset.js:2 | encoding in chunks of 16383 bytes is encoding in one pass |
| `Base64.FromByteArray` | web/static/swagger/swagger-ui-standalone-preset.js:2 | `fromByteArray` of any bytes is their encoding |
| `Base64.ToByteArray` | web/static/swagger/swagger-ui-standalone-preset.js:2 | `toByteArray` of any text, malformed padding included, as its loop and two tails compute it, or an error |
| `Base64Decoding.DecodedIsStandard` | web/static/swagger/swagger-ui-standalone-preset.js:2 | main result: of any text the decoder takes the characters before the first padding, six bits each, and as many whole bytes as these make; it fails on a length that is no multiple of four and on padding at the start, and elsewhere loses a group to padding that stands where one would start |
| `Base64.RoundTrip` | web/static/swagger/swagger-ui-standalone-preset.js:2 | main result: `toByteArray` of `fromByteArray` gives the bytes back and `byteLength` of the text is their number |
| `SessionSafety.CreateIsSound` | internal/services/auth.go:78-101 | every store call of `CreateSession` keeps the invariant of both stores, whether it succeeds, fails, or takes effect and reports an error |
| `SessionSafety.ValidateIsSound` | internal/services/auth.go:103-143 | the same for `ValidateSession`, the sliding expiry included |
| `SessionSafety.DeleteAllIsSound` | internal/services/auth.go:161-190 | the same for `DeleteAllUserSessions`, whether its query reads all rows or is cut short: it only ever holds hashes of its own user |
| `SessionSafety.StepIsValid` | internal/services/auth.go:78-190 | every step of any interleaving of calls keeps the invariant |
| `SessionHistory.ValidatesToOwner` | internal/services/auth.go:103-143 | main result: in every interleaving with arbitrary errors a token only ever validates to the user it was created for |
| `SessionHistory.StoresAgree` | internal/services/auth.go:78-143 | whenever both stores hold a token they hold it for the same user |
| `SessionHistory.AnswersAreTimely` | internal/services/auth.go:103-143 | main result: an answer from Redis follows an unbroken chain of expiries, each less than 30 days after the one before, back to the creation; an answer from Postgres comes at most 30 days after it |
| `SessionHistory.LiveSessionIsAnswered` | internal/services/auth.go:103-143 | main result: in every interleaving a validation that finds a live key returns its user if the account can be loaded at the end, and its renewal keeps a key that is still there for another 30 days |
| `SessionHistory.RowInTimeIsAnswered` | internal/services/auth.go:118-143 | main result: and one that finds no key returns the user of the row its query gives, if that is in time and the account can be loaded |
| `SessionHistory.StaysWithoutKey` | internal/services/auth.go:103-116 | a missing key stays missing: the `Expire` of a concurrent validation cannot bring it back |
| `SessionHistory.DeletedFromBoth` | internal/services/auth.go:145-159 | a `DeleteSession` whose two deletions took effect leaves the token in neither store, whatever happened in between |
| `SessionHistory.DeletedStaysDeleted` | internal/services/auth.go:145-159 | main result: after that, only a validation already under way can still return the user, in every continuation |
| `SessionHistory.DeleteAllSparesOthers` | internal/services/auth.go:161-190 | every store call of `DeleteAllUserSessions` leaves all other users' keys and rows unchanged, whatever else is going on |
| `SessionHistory.DeleteAllRemovesKeys` | internal/services/auth.go:161-190 | main result: in every interleaving, once `DeleteAllUserSessions` has gone through the hashes its query found and its deletions took effect, none of their tokens has a live key, whatever other calls did meanwhile |
| `SessionHistory.DeleteAllTakesEffect` | internal/services/auth.go:161-190 | main result: if its query read all rows and its last deletion takes effect too, no row of the user is left and the keys of all hashes those rows held are still gone |
| `SessionHistory.DeleteAllRemovesNoMore` | internal/services/auth.go:161-190 | a store call of it removes at most the key at the head of its queue, or its user's rows |
| `AuthService.AuthService.CreateSession` | internal/services/auth.go:78-101 | the method called alone: the key for 30 days, or after an error of Redis the row, in both stores as the process leaves them; the token is returned if one was reported stored, and then opens for its user |
| `AuthService.AuthService.ValidateSession` | internal/services/auth.go:103-143 | the method called alone: a live key answers with its user if that can be loaded, and is renewed for 30 days if that write took effect; without one the row the query gives answers by its expiry; and both stores as the process leaves them |
| `AuthService.OpensIff` | internal/services/auth.go:103-143 | a token opens a session for a user, in the sense of the results on password resets, exactly when validation answers that user |
| `AuthService.AuthService.DeleteSession` | internal/services/auth.go:145-159 | the method called alone: both stores, and success exactly when the row deletion reported none |
| `AuthService.AuthService.DeleteAllUserSessions` | internal/services/auth.go:161-190 | the two loops, for every end of the query and of each deletion: which keys and rows are gone, and that success says so only of the rows |
| `AuthService.LogoutIsCompleteIff` | internal/services/auth.go:145-159 | deleting a session leaves nothing of it if and only if each store that held it was reached; a reported success says so only of the rows |
| `AuthService.DeleteAllIsCompleteIff` | internal/services/auth.go:161-190 | whatever its store calls do, all sessions of the user end if and only if the query found each live Redis key and its deletion took effect, and the rows went |
| `AuthService.FlawlessIsCompleteIff` | internal/services/auth.go:161-190 | without any error what decides is whether each live Redis key of the user has a row |
| `AuthService.NewSessionSurvivesDeleteAll` | internal/services/auth.go:78-101 | a session created without a Redis error has no row and survives every deletion, although the callers mean to invalidate all sessions |
| `SessionReset.SurvivesResetIff` | internal/handlers/auth.go:408-486 | main result: which older sessions of the user still open after a password reset, for every outcome of its store calls |
| `SessionReset.ResetSparesOthers` | internal/handlers/auth.go:408-486 | a password reset leaves every session of every other user as it was |
| `EmailTokenSafety.SendVerificationIsValid` | internal/services/email.go:91-116 | issuing a verification token keeps the invariant, whether or not the row is written and the mail sent |
| `EmailTokenSafety.MagicLinkIsValid` | internal/handlers/auth.go:307-333 | issuing a magic link keeps it |
| `EmailTokenSafety.ForgotPasswordIsValid` | internal/handlers/auth.go:379-405 | issuing a reset token keeps it |
| `EmailTokenSafety.RegisterIsValid` | internal/services/user.go:28-61 | a new account keeps it: addresses stay unique |
| `EmailTokenSafety.VerifyEmailIsValid` | internal/services/email.go:119-153 | redeeming a verification token keeps it, with each write failing or not |
| `EmailTokenSafety.MagicLinkVerifyIsValid` | internal/handlers/auth.go:336-376 | redeeming a magic link keeps it, even when marking the link fails |
| `EmailTokenSafety.ResetPasswordIsValid` | internal/handlers/auth.go:408-486 | redeeming a reset token keeps it, even when the update reports an error after taking effect |
| `EmailTokenHistory.VerifiedByMail` | internal/services/email.go:91-271 | main result: in every run a verified account's own address was mailed a token that was accepted, and no other account has that address |
| `EmailTokenHistory.NeverUnverified` | internal/services/user.go:115-124 | in every run an account never becomes unverified and never changes its address |
| `EmailTokenHistory.AcceptedOnce` | internal/services/email.go:184-280 | main result: a token whose marking or deleting write took effect is never accepted again |
| `EmailTokenHistory.AcceptedForItsIssue` | internal/services/email.go:119-271 | main result: every acceptance is for the address of the issue and within 24 hours, 15 minutes or 1 hour of it |
| `EmailTokenHistory.VerificationSpendsAll` | internal/services/email.go:119-153 | a successful `VerifyEmail` verifies the account and leaves no verification token of its user |
| `EmailTokenHistory.SpentForGood` | internal/services/email.go:119-271 | what is spent is accepted by nothing that happens later |
| `EmailTokenUse.AccountAfter` | internal/handlers/auth.go:408-486 | main result: the password and the mark of every account after every event: only a live reset token of the account or a change sets the one, only a live token of the account the other |
| `EmailTokenUse.ResetTokenWorks` | internal/services/email.go:219-280 | main result: for an hour a mailed reset token sets the password of the account it was asked for, whatever other events come before |
| `EmailTokenUse.MagicLinkWorks` | internal/services/email.go:156-216 | for 15 minutes a mailed link yields its address, whatever other events come before |
| `EmailTokenUse.VerificationWorks` | internal/services/email.go:91-153 | for a day a mailed verification token verifies its account, unless that was verified in the meantime |
| `EmailServer.Server.Create` | internal/services/user.go:28-61 | an account is created exactly when address and name are free and the insert took effect |
| `EmailServer.Server.UpdatePassword` | internal/services/user.go:99-113 | the account has the new password if the update took effect, and nothing else of any account changes |
| `EmailServer.Server.VerifyEmail` | internal/services/email.go:119-153 | the method's ordered writes leave the tables of the event, and it succeeds exactly on a live token with a successful update |
| `EmailServer.Server.VerifyMagicLink` | internal/services/email.go:184-216 | the address of a live unused link, marked as used unless that write failed |
| `EmailServer.Server.VerifyPasswordResetToken` | internal/services/email.go:247-271 | the account whose own address the token was issued for at most an hour ago, never for a spent token; with any other token a reset changes nothing |
| `EmailServer.Server.MagicLinkVerify` | internal/handlers/auth.go:336-376 | a live unused link marks the account with its address as verified if that write took effect, and changes no other account; a session is created exactly for an account that can be read again, and the cookie it brings opens for that account |
| `EmailServer.Server.MagicLink` | internal/handlers/auth.go:307-333 | the handler mails a link to the address exactly when an account has it and can be read, and its insert reports success |
| `EmailServer.Server.ForgotPassword` | internal/handlers/auth.go:379-405 | the handler mails a reset token exactly when an account has the address and can be read, and its insert reports success |
| `EmailServer.Server.ResetPassword` | internal/handlers/auth.go:408-486 | on a live unused token whose update took effect the account of the token has the new password, and on any other call no account changes; no other account ever does; the session stores are those of deletion and creation in order, and the cookie opens for the account |
| `RateLimit.RateLimiter.Handle` | internal/middleware/ratelimit.go:38-99 | one request: the atomic increment and expiry, the response on errors by policy, the response by count |
| `RateLimit.ServedIff` | internal/middleware/ratelimit.go:38-99 | a request whose increment succeeds is served exactly when the counter that is still alive has counted fewer than the limit; on an error it is served exactly when the policy is open, and else answered as unavailable |
| `RateLimit.ChargeOne` | internal/middleware/ratelimit.go:55-97 | one request of any key keeps the charge of served requests to counters |
| `RateLimit.EveryRunIsCharged` | internal/middleware/ratelimit.go:55-97 | in every run the requests served since a time are charged to counters begun a window apart |
| `RateLimit.ServedPerCounter` | internal/middleware/ratelimit.go:55-97 | one counter serves at most `limit` requests |
| `RateLimit.ServedBound` | internal/middleware/ratelimit.go:38-99 | main result: refusing on errors, any run serves at most limit * (ceil(length / ttl) + 1) - 1 requests of a key in any interval of that length |
| `RateLimit.ServedInWindow` | internal/middleware/ratelimit.go:38-99 | less than twice the limit in any interval of one window |
| `RateLimit.BoundIsAttained` | internal/middleware/ratelimit.go:38-99 | a run that serves 2 * limit - 1 requests in one window, for every limit and every window of at least two time units |
| `RateLimit.NothingServed` | internal/middleware/ratelimit.go:92-95 | a limit below one serves nothing |
| `RateLimit.NoWindowNoLimit` | internal/middleware/ratelimit.go:65 | a window shorter than a second is cut to zero, and then every request that reaches Redis is served |
| `Csrf.LastCookieIsBody` | internal/middleware/csrf.go:70-135 | main result: whatever `ensureToken` and `GetToken` mint in one response, the cookie kept is the token in the body |
| `Csrf.RejectionIsCsrfError` | web/static/js/api.js:72-76 | the client recognises every rejection of `Protect` as one |
| `Csrf.Client.FetchCSRFToken` | web/static/js/api.js:12-29 | a fetch that succeeds, at once or when retried, leaves cookie and token equal and not empty; the retry happens at most once in the client's life |
| `Csrf.PassesIff` | internal/middleware/csrf.go:26-68 | main result: a request that changes state passes `Protect` if and only if its header carries the cookie's token and that is not empty; safe verbs and the unsubscribe path always pass |
| `Csrf.SafeRequestBringsToken` | internal/middleware/csrf.go:70-105 | a safe request passes and leaves the browser with the token it had, or without one with a new one, unless minting fails |
| `Csrf.TokenIsHandedOut` | internal/middleware/csrf.go:107-135 | `GetToken` answers with the token of the cookie that came, or else with the one it sets |
| `Csrf.Client.Fetch` | web/static/js/api.js:31-58 | one delivered request that changes state passes exactly when cookie and token agree and are not empty, and is else rejected with a CSRF error that changes no cookie |
| `Csrf.Client.Request` | web/static/js/api.js:31-102 | main result: from any cookie and token a state-changing request passes `Protect` after at most one retry when its fetches are delivered and a token comes, at once or when retried, and the fetch counts stay within 2n and n + 1 beyond the first |
| `Hosts.IsValidHostname` | internal/handlers/pages.go:178-209 | accepts exactly the dot-joined labels of section 2.1 of RFC 1123 in lower case, at most 63 characters each and 253 in all |
| `Hosts.SplitOfJoin` | internal/handlers/pages.go:189-192 | splitting at dots undoes joining labels |
| `HostSanitizer.SanitizeHost` | internal/handlers/pages.go:108-176 | the method with its reassigned host and port returns the sanitized host |
| `HostSanitizer.SanitizedIsSafe` | internal/handlers/pages.go:108-176 | main result: a nonempty result is an IP literal, bare or in brackets, or a host name, or either with a port of digits for 1 to 65535, perhaps signed, without any of the forbidden characters |
| `HostSanitizer.SanitizedTwice` | internal/handlers/pages.go:108-176 | main result: sanitizing is idempotent on every string |
| `HostSanitizer.ResolveBaseURL` | internal/handlers/pages.go:66-84 | the method computes the base URL from connection and headers |
| `HostSanitizer.BaseUrlIsSafe` | internal/handlers/pages.go:66-106 | whatever the headers say, the base URL is http or https and one result of the sanitizer, `localhost` if there is none |
| `HostForms.TakesIff` | internal/handlers/pages.go:108-176 | main result: of printable text the sanitizer takes exactly IP literals with colons, literals in brackets, and hosts of any case with or without a port, and gives the literals as they are, the hosts lowered with their port |
| `HostForms.BaseUrlIs` | internal/handlers/pages.go:66-106 | the base URL: the first forwarded protocol if it is http or https, else https over TLS and http without; the first forwarded host if it is taken, else the own host, else `localhost` |
| `UriAuthority.SanitizedIsAuthorityIff` | internal/handlers/pages.go:108-176 | a nonempty result is an authority of section 3.2 of RFC 3986 if and only if the input has no signed port, no bare literal with colons, no bracketed one before an empty port, and no bracketed literal without colons |
| `UriAuthority.BaseUrlHasAuthorityIff` | internal/handlers/pages.go:66-106 | main result: the base URL has a well-formed authority if and only if the header that decides its host is none of these |
| `UriAuthority.SignedPortPasses` | internal/handlers/pages.go:157-162 | a port with a plus sign passes into the base URL |
| `UriAuthority.BareLiteralPasses` | internal/handlers/pages.go:149-154 | an IPv6 literal passes without brackets |
| `UriAuthority.BracketsAreLost` | internal/handlers/pages.go:172-175 | every lower-case IPv6 literal loses its brackets before an empty port |
| `UriAuthority.BracketedIPv4Passes` | internal/handlers/pages.go:127-137 | an IPv4 literal passes in brackets |
| `HtmlEscape.EscapeIsCharwise` | web/static/js/app.js:27-34 | main result: the five replacements in their order are one substitution of each character |
| `HtmlEscape.OrderMatters` | web/static/js/app.js:27-34 | the order with the ampersands last escapes a text the same if and only if it has none of the other four characters |
| `HtmlEscape.EntitiesAreInert` | web/static/js/app.js:27-34 | the output has no markup character, and every ampersand begins one of the five entities |
| `HtmlEscape.EscapeIsSafe` | web/static/js/app.js:27-34 | a left-to-right decoder of the entities gives the input back |
| `HtmlEscape.EscapeIsInjective` | web/static/js/app.js:27-34 | different texts have different escapes |

## Left out

- The rest of the bundle: React, lodash, core-js, the Swagger components, the other YAML readers and writers,
  floating-point codecs, lists and lazy sequences of the immutable library, and its in-place mutation by owner.
- In the YAML reader: the warning callback on deficient indentation, which changes neither position nor result.
  Past the end of the input, which the loader ends with a NUL, the model reads -1.
- In the scheduler: a host without timers, whose `setTimeout` throws.
- The `noAssert` argument of the integer codecs, and floating-point offsets and byte lengths.
- StreamingHash.Hash.Digest: does not model messages of 2^53 bytes or more, whose length is no exact double.
- StreamingHash.DigestOfParts: the same bound.
- Sha512Hash.Digest: the same bound.
- Password hashing, random bytes, UUID parsing, SQL text, mail providers and templates, DOM code, routing,
  configuration, migrations, logging, security headers, caching, compression and health checks.
- Redis eviction and restarts, and a Redis write that lands after its error was returned.
- The users table behind `ValidateSession`: loading the user succeeds or fails, and nothing deletes users.
- Interleaving of two handler calls on the mailed tokens: each call is one event, so two simultaneous redemptions
  of one token, both reading it before either marks it, are not in the model.
- Concurrent requests of one browser client, and lower-casing of characters outside ASCII in error texts.
- Notes: each service method is one query.
- `GetClientIP` and `Login`: single branches without state of their own.
