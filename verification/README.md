# Verified models of the basa core

A Dafny model of the parts of this repository that reconcile state, rewrite text or do real
parsing and arithmetic, with proofs of what they promise. Run `dafny verify dfyconfig.toml`
to check everything.

| module | models |
|---|---|
| `BinaryExpressions` | the operator-precedence parser in the bundled ECMAScript parser |
| `BufferInts`, `Utf8`, `Base64` | the signed integer accessors, the UTF-8 coder and the base64 coder of the bundled Buffer |
| `ClusterManagers` | the cache of live cluster managers, reconciled with the cluster table |
| `Transactions` | what a database session does: a private copy, statements that may fail, commit or discard |
| `Units`, `Wrappers`, `Sequences` | bytes and code units; optional values; laws of sequences and the selection of their elements |
| `Memberships` | the groups of a user in an app or a namespace (two models with the same statements; the app or namespace column is called scope) |
| `PublishStatuses` | which template a resource is published with on a cluster |
| `Groups` | permission groups with their permission links |
| `OrderUpdates` | the batch statement that sets display orders, its text, and a reader for such texts |
| `FieldNames`, `QueryFilters`, `Paging` | checked field names, WHERE clauses from filter maps, 64-bit paging |
| `LangTrees`, `LangObjects` | the fill command of the translation tool: what it means, and as it changes objects in place |
| `LangFormat`, `LangSort` | its format and sort commands |

How to read the models:

- Code that works step by step is a method with loops over the same variables, or a class with
  the same fields, proved against a specification function; the properties are lemmas about
  that function. Expressions are functions.
- A database session takes an arbitrary function that says which statements fail. A
  statement that fails has no effect, and a transaction that is not committed leaves the
  committed state alone. Every property of `Memberships`, `PublishStatuses` and `Groups`
  holds for every such function.
- `ClusterManagers` takes an arbitrary table (or read failure) and an arbitrary build outcome
  per row at every call. Closing a closed channel panics in Go, so `Close` demands an open
  channel and every call site proves it.
- Runs of `ClusterManagers` are serial. The code takes no lock of its own, and a lookup can
  reconcile while the periodic loop does (`src/backend/initial/client.go:13`,
  `src/backend/client/client.go:171`); that calls do not interleave is an assumption.

Where the code does something its purpose does not suggest, the model keeps the code and a
theorem says when it matters:

- When creating a membership fails, the error is shadowed and the loop just stops; the
  deletions that follow then also remove requested groups the loop did not reach, and the call
  reports success (`Memberships.SwallowedFailure`; `Memberships.RequestReachedIff` says exactly
  when the request is reached).
- The integer writers accept a negative offset, and unchecked any offset. A byte outside the
  buffer is lost, and for a negative value a lost first byte can make the others wrong
  (`BufferInts.LostByte`; `BufferInts.LostBytesShow` says exactly when).
- The UTF-8 encoder loses the last of two lone leading surrogates at the end of a string
  (`Utf8.ReplacesUnlessTwoLeadsEnd`).
- The page offset is a 64-bit product. Up to the last page it cannot overflow; far behind it a
  large product wraps around and results come again (`Paging.WrappedLaterPage`). A non-positive
  page number can wrap too (`Paging.WrappedPage`), but the HTTP parameters reject those
  (`src/backend/controllers/base/parambuilder.go:89-111`), so only a direct caller can pass one.
  The exact conditions stand beside both.
- Fields of GROUP BY and ORDER BY are checked before they are pasted into a statement, filter keys
  are not, and the HTTP parameters hand them on (`src/backend/controllers/base/parambuilder.go:28-49`):
  any text without a double underscore can become a column (`QueryFilters.ColumnPartIff`,
  `QueryFilters.ClauseHarmlessIff`).
- A `contains` filter is a substring test exactly when its value has no `%`, `_` or backslash
  (`QueryFilters.ContainsMeansSubstring`).
- A cluster with an empty master is never stored, so a snapshot that has one is reported as
  changed on every run (`ClusterManagers.SettledIff`). As only clusters of normal status are
  stored, `Manager` never answers that a cluster is being maintained.
- `fill` writes into a text of the target without effect, so what the source has below it does
  not arrive (`LangTrees.CoversUnlessClash`).

## Model

| member | source | states |
|---|---|---|
| `BinaryExpressions.Parser.ParseBinaryExpression` | src/backend/swagger/swagger-ui-standalone-preset.js:15 | the call consumes the longest chain of operands and operators at its position and returns a correctly grouped and marked tree whose tokens are that chain, or reports the exact place where an operand is missing |
| `BinaryExpressions.ReadingIsTheInput` | src/backend/swagger/swagger-ui-standalone-preset.js:15 | the chain of a successful call is the input itself, unchanged and in order, and what follows it is no operator of the grammar |
| `BinaryExpressions.ReadingAlternates` | src/backend/swagger/swagger-ui-standalone-preset.js:15 | operands and operators of the grammar take turns up to where a call ends, and where a failing call reports an operand as missing there is none |
| `BinaryExpressions.UniqueTree` | src/backend/swagger/swagger-ui-standalone-preset.js:15 | no two correct trees have the same tokens, so the parser's answer is the only one |
| `BinaryExpressions.RootsMeet` | src/backend/swagger/swagger-ui-standalone-preset.js:15 | two correctly grouped trees of one token list have the same root operator at the same place |
| `BinaryExpressions.OperatorsRankAbove` | src/backend/swagger/swagger-ui-standalone-preset.js:15 | no operator inside a correctly grouped tree binds less tightly than its root |
| `BinaryExpressions.CorrectIffDerived` | src/backend/swagger/swagger-ui-standalone-preset.js:15 | the correct trees are exactly the marked parse trees of LogicalORExpression in sections 12.6 to 12.12 of ECMA-262, 6th edition |
| `BinaryExpressions.DerivesIffGrouped` | src/backend/swagger/swagger-ui-standalone-preset.js:15 | for each nonterminal of that grammar, being derivable from it is the same as being grouped by precedence with a root at that level or tighter |
| `BinaryExpressions.OperatorsHaveTheirLevel` | src/backend/swagger/swagger-ui-standalone-preset.js:14-15 | the precedence table gives an operator a nonterminal's level exactly when the grammar uses it in that nonterminal's production, `in` only where it is allowed |
| `BinaryExpressions.PrecedenceIffOperator` | src/backend/swagger/swagger-ui-standalone-preset.js:14-15 | a token has the precedence of a nonterminal exactly when its text is an operator of that production and its kind is keyword for `instanceof` and `in` and punctuator for all others |
| `BinaryExpressions.OperatorsHavePrecedence` | src/backend/swagger/swagger-ui-standalone-preset.js:14-15 | so the tokens with a precedence are exactly the operators of the grammar |
| `BinaryExpressions.TokenLevel` | src/backend/swagger/swagger-ui-standalone-preset.js:15 | the precedence the loop compares, taken from a token, is the one the finished tree is judged by, and below that of operands |
| `BinaryExpressions.ReduceKeepsStack` | src/backend/swagger/swagger-ui-standalone-preset.js:15 | a reduction keeps precedences strictly increasing towards the top, every expression correct, and the token list of the whole stack |
| `BinaryExpressions.ReduceEntries` | src/backend/swagger/swagger-ui-standalone-preset.js:15 | a reduction of the stack's shape is three pops, one push and one marker less on the two arrays |
| `BinaryExpressions.ReduceWhile` | src/backend/swagger/swagger-ui-standalone-preset.js:15 | the inner loop stops with every operator left on the stack binding less tightly than the next one, without losing a token |
| `BinaryExpressions.Fold` | src/backend/swagger/swagger-ui-standalone-preset.js:15 | the final loop turns the stack into one correct tree of all its tokens |
| `BinaryExpressions.Parser.Shift` | src/backend/swagger/swagger-ui-standalone-preset.js:15 | pushing an operator and its operand keeps the stack's order of precedences and leaves the same chain to be read, or fails where the operand is missing |
| `BufferInts.WriteThenRead` | src/backend/swagger/swagger-ui-standalone-preset.js:14 | a value that fits is read back as written, in either byte order, checked or unchecked, at any offset whose window lies inside the buffer, and no byte outside the window changes |
| `BufferInts.WriteIntLE` | src/backend/swagger/swagger-ui-standalone-preset.js:14 | for any number, offset and integer length, checked or unchecked: if checked, a number that does not pass the bounds or a window beyond the end is refused and nothing is written; else the two's complement of its integer part, less one if the number is negative and its first byte is lost, is laid over the buffer as far as it lies inside, least significant byte first |
| `BufferInts.EarlyBorrowShows` | src/backend/swagger/swagger-ui-standalone-preset.js:14 | behind a lost byte the stored byte k of a negative number is wrong exactly when its integer part is divisible by 256^k |
| `BufferInts.LostBytesShow` | src/backend/swagger/swagger-ui-standalone-preset.js:14 | all bytes from the m-th on are right exactly when 256^m does not divide the integer part |
| `BufferInts.LostByte` | src/backend/swagger/swagger-ui-standalone-preset.js:14 | a checked call at offset -1 that stores a wrong byte |
| `BufferInts.WriteIntBE` | src/backend/swagger/swagger-ui-standalone-preset.js:14 | the same with the most significant byte first; here the first byte is lost beyond the end of the buffer |
| `BufferInts.FillLE` | src/backend/swagger/swagger-ui-standalone-preset.js:14 | the loop with multiplier and borrow, reading back what it wrote, stores these bytes although it divides with truncation |
| `BufferInts.FillBE` | src/backend/swagger/swagger-ui-standalone-preset.js:14 | the same for the descending loop |
| `BufferInts.NextByte` | src/backend/swagger/swagger-ui-standalone-preset.js:14 | each round finds the borrow from the byte read back before, undefined counting as not zero, and with it the byte to store |
| `BufferInts.QuotientIs` | src/backend/swagger/swagger-ui-standalone-preset.js:14 | cutting off the fraction before or after dividing by a power of 256 gives the same integer, so only the integer part of a number is written |
| `BufferInts.ReadIntLE` | src/backend/swagger/swagger-ui-standalone-preset.js:14 | the signed value of the window; a negative offset or a window beyond the end is its own error if checked, and no number if not |
| `BufferInts.SumLE` | src/backend/swagger/swagger-ui-standalone-preset.js:14 | the loop sums the unsigned value of a window inside the buffer, and no number otherwise |
| `BufferInts.ReadIntBE` | src/backend/swagger/swagger-ui-standalone-preset.js:14 | the same for the reversed window |
| `BufferInts.SumBE` | src/backend/swagger/swagger-ui-standalone-preset.js:14 | the descending loop does the same from the window's end |
| `BufferInts.TwosComplementAt` | src/backend/swagger/swagger-ui-standalone-preset.js:14 | byte k of what is written is floor(v / 256^k) mod 256 |
| `BufferInts.TruncationBorrow` | src/backend/swagger/swagger-ui-standalone-preset.js:14 | division rounding towards zero is one too high exactly for a negative value with a remainder |
| `BufferInts.BorrowIsRemainder` | src/backend/swagger/swagger-ui-standalone-preset.js:14 | the sticky borrow, set by the first non-zero byte of a negative value, says exactly whether the division has a remainder |
| `BufferInts.WrittenByte` | src/backend/swagger/swagger-ui-standalone-preset.js:14 | truncated quotient, 32-bit conversion, borrow and mask together give the floor byte, for every value and byte |
| `BufferInts.SignedOfTwosComplement` | src/backend/swagger/swagger-ui-standalone-preset.js:14 | reading the two's complement of a value that fits gives the value |
| `BufferInts.TwosComplementOfSigned` | src/backend/swagger/swagger-ui-standalone-preset.js:14 | every byte pattern reads as a value in range, and is that value's two's complement |
| `BufferInts.UnsignedOfTwosComplement` | src/backend/swagger/swagger-ui-standalone-preset.js:14 | without its sign the pattern is the value modulo 256^n |
| `BufferInts.OverlaidWindow` | src/backend/swagger/swagger-ui-standalone-preset.js:14 | bytes laid over a window inside the buffer are there as given, and all other bytes are as before |
| `BufferInts.OverlaidAt` | src/backend/swagger/swagger-ui-standalone-preset.js:14 | wherever the window lies, each byte with a place inside the buffer is there, and every other place is as before |
| `BufferInts.LaidAt` | src/backend/swagger/swagger-ui-standalone-preset.js:14 | how many bytes are laid over and which: byte k of the integer part, or of the integer below behind a lost first byte of a negative number, from either end; at least one byte whatever the length |
| `BufferInts.CheckIntIs` | src/backend/swagger/swagger-ui-standalone-preset.js:14 | a checked write is refused for its value first, and then exactly when some byte has its place beyond the end; a place before the start is not refused |
| `BufferInts.CheckReadIs` | src/backend/swagger/swagger-ui-standalone-preset.js:14 | a read has a value exactly when every byte has its place inside the buffer, and which error it gives otherwise |
| `BufferInts.BoundsAre` | src/backend/swagger/swagger-ui-standalone-preset.js:14 | the bounds of a checked write in numbers, one to seven bytes |
| `BufferInts.ToInt32Is` | src/backend/swagger/swagger-ui-standalone-preset.js:14 | the conversion to 32 bits gives the only number of the signed range that is congruent modulo 2^32 |
| `BufferInts.IntegerIs` | src/backend/swagger/swagger-ui-standalone-preset.js:14 | the integer of a finite number is the nearest towards zero, and any other number gives zero |
| `Utf8.DecodeEncode` | src/backend/swagger/swagger-ui-standalone-preset.js:14 | decoding undoes encoding exactly on strings without lone surrogates; else it gives the repaired string |
| `Utf8.LosslessIff` | src/backend/swagger/swagger-ui-standalone-preset.js:14 | in numbers: a string comes back from its bytes exactly when each of its surrogates has its partner beside it |
| `Utf8.ReplacedAt` | src/backend/swagger/swagger-ui-standalone-preset.js:14 | unit by unit: full repair keeps the length, puts 0xFFFD in the place of each surrogate without partner and keeps every other unit |
| `Utf8.EncodeDecode` | src/backend/swagger/swagger-ui-standalone-preset.js:14 | encoding undoes decoding exactly on the byte strings that sections 3 and 4 of RFC 3629 call well-formed |
| `Utf8.DecodeChar` | src/backend/swagger/swagger-ui-standalone-preset.js:14 | an encoded character is decoded to its units whatever follows it |
| `Utf8.DecodeMalformed` | src/backend/swagger/swagger-ui-standalone-preset.js:14 | where no encoded character starts, one byte is given up for 0xFFFD and decoding goes on behind it |
| `Utf8.Utf8Bits` | src/backend/swagger/swagger-ui-standalone-preset.js:14 | the bits of a scalar value in its one to four bytes, as section 3 of RFC 3629 lays them out |
| `Utf8.Utf16Bits` | src/backend/swagger/swagger-ui-standalone-preset.js:14 | the bits of a scalar value in its one or two code units |
| `Utf8.EncoderIsWellFormed` | src/backend/swagger/swagger-ui-standalone-preset.js:14 | whatever the string and the byte limit, the encoder's bytes are well-formed UTF-8 |
| `Utf8.ReplacesUnlessTwoLeadsEnd` | src/backend/swagger/swagger-ui-standalone-preset.js:14 | every lone surrogate becomes U+FFFD, except that of two leads ending the string the last is lost |
| `Utf8.FitIsLongestPrefix` | src/backend/swagger/swagger-ui-standalone-preset.js:14 | with a byte limit the encoder writes the longest prefix of whole characters that fits |
| `Utf8.FitUnlimited` | src/backend/swagger/swagger-ui-standalone-preset.js:14 | without a limit it writes all characters |
| `Utf8.Utf8ToBytes` | src/backend/swagger/swagger-ui-standalone-preset.js:14 | the encoding loop with its pending lead and its remaining units writes exactly the repaired characters that fit |
| `Utf8.EncodeUnit` | src/backend/swagger/swagger-ui-standalone-preset.js:14 | each round keeps settled what the whole output will be, and breaks only when it is complete |
| `Utf8.PushCode` | src/backend/swagger/swagger-ui-standalone-preset.js:14 | a code point is written in the one to four bytes of RFC 3629, wholly or not at all |
| `Utf8.PushReplacement` | src/backend/swagger/swagger-ui-standalone-preset.js:14 | the three bytes written for a lone surrogate are those of U+FFFD, wholly or not at all |
| `Utf8.DecodeOne` | src/backend/swagger/swagger-ui-standalone-preset.js:14 | the masks and range tests of one round accept exactly the characters of section 4 of RFC 3629 and else take one byte as U+FFFD |
| `Utf8.DecodeThree` | src/backend/swagger/swagger-ui-standalone-preset.js:14 | three bytes are taken for a character exactly when they are one of section 4 of RFC 3629, with its value |
| `Utf8.DecodeFour` | src/backend/swagger/swagger-ui-standalone-preset.js:14 | the same for four bytes |
| `Utf8.Utf8Slice` | src/backend/swagger/swagger-ui-standalone-preset.js:14 | a window of the buffer, cut to its end, is decoded as a whole |
| `Utf8.DecodeWindow` | src/backend/swagger/swagger-ui-standalone-preset.js:14 | the decoding loop gives the UTF-16 form of the characters in the window |
| `Utf8.DecodeStep` | src/backend/swagger/swagger-ui-standalone-preset.js:14 | each round moves one character from what is ahead to what is done |
| `Utf8.DecodeCodePointsArray` | src/backend/swagger/swagger-ui-standalone-preset.js:14 | joining pieces of 4096 code units loses and moves nothing |
| `Utf8.CharOfScalar` | src/backend/swagger/swagger-ui-standalone-preset.js:14 | the encoding of a scalar value is read back as one character of that value whatever follows it |
| `Utf8.ScalarOfChar` | src/backend/swagger/swagger-ui-standalone-preset.js:14 | the bytes of a well-formed character are the encoding of its value, so there is no second encoding |
| `Utf8.Table3` | src/backend/swagger/swagger-ui-standalone-preset.js:14 | for three bytes the decoder's test on the value is the table of second bytes in section 4 of RFC 3629 |
| `Utf8.Table4` | src/backend/swagger/swagger-ui-standalone-preset.js:14 | the same for four bytes |
| `Utf8.ScalarsInUtf8` | src/backend/swagger/swagger-ui-standalone-preset.js:14 | encoded scalar values are well-formed and decode to themselves |
| `Utf8.Utf8OfScalarsIn` | src/backend/swagger/swagger-ui-standalone-preset.js:14 | well-formed bytes decode to values whose encoding they are |
| `Utf8.RepairedOfUtf16` | src/backend/swagger/swagger-ui-standalone-preset.js:14 | pairs made from scalar values are well-formed UTF-16 and are taken apart again by the encoder |
| `Base64.DecodedEncoded` | src/backend/swagger/swagger-ui-standalone-preset.js:14 | decoding undoes encoding on every byte sequence, the empty one included |
| `Base64.EncodedDecoded` | src/backend/swagger/swagger-ui-standalone-preset.js:14 | encoding undoes decoding exactly on canonical strings: standard alphabet, padding only in the last group, unused bits zero |
| `Base64.EncodedLength` | src/backend/swagger/swagger-ui-standalone-preset.js:14 | n bytes become 4 * ceil(n / 3) characters |
| `Base64.FromByteArray` | src/backend/swagger/swagger-ui-standalone-preset.js:14 | the chunked encoder with its padded tail gives the unchunked encoding |
| `Base64.EncodeChunks` | src/backend/swagger/swagger-ui-standalone-preset.js:14 | cutting at multiples of 16383 cuts no group, so the pieces join to the encoding of all whole triples |
| `Base64.EncodeChunk` | src/backend/swagger/swagger-ui-standalone-preset.js:14 | the inner loop encodes its range triple by triple |
| `Base64.EncodeTail` | src/backend/swagger/swagger-ui-standalone-preset.js:14 | one or two bytes left over become their padded group |
| `Base64.ByThreesAppend` | src/backend/swagger/swagger-ui-standalone-preset.js:14 | encoding distributes over concatenation wherever the left part is a whole number of triples |
| `Base64.ToByteArray` | src/backend/swagger/swagger-ui-standalone-preset.js:14 | a length that is no multiple of four is refused; else the array is exactly filled with the decoded bytes |
| `Base64.DecodeAllPadded` | src/backend/swagger/swagger-ui-standalone-preset.js:14 | with padding, the loop decodes all but the last group and the tail the one or two bytes of that |
| `Base64.DecodeQuads` | src/backend/swagger/swagger-ui-standalone-preset.js:14 | the loop turns the groups before its limit into three bytes each, in order |
| `Base64.ByFoursOfByThrees` | src/backend/swagger/swagger-ui-standalone-preset.js:14 | if each group is undone by decoding it, so is the whole |
| `Base64.LookupLetter` | src/backend/swagger/swagger-ui-standalone-preset.js:14 | the reverse table undoes the table, and no letter is the padding character |
| `Base64.LetterIs` | src/backend/swagger/swagger-ui-standalone-preset.js:14 | a character is the letter of its value exactly when it is in the standard alphabet, so the URL-safe letters are read but never written |
| `Base64.AlphabetIs` | src/backend/swagger/swagger-ui-standalone-preset.js:14 | the letters are those of section 4 of RFC 4648, in its order |
| `Base64.LookupIs` | src/backend/swagger/swagger-ui-standalone-preset.js:14 | every character reads as its place in that alphabet, the two URL-safe letters as the last two places, and anything else as zero |
| `Base64.LettersOfGroup` | src/backend/swagger/swagger-ui-standalone-preset.js:14 | the letters of a group of one, two or three bytes are its bits in sixes, first bits first, filled up with zeros and padded |
| `Base64.BytesOfGroup` | src/backend/swagger/swagger-ui-standalone-preset.js:14 | four characters in front of a string decode to the first bits of their values, in front of what the rest decodes to: three bytes, or fewer at the end where the padding says so |
| `ClusterManagers.Serve` | src/backend/client/client.go:49-99 | after any serial run of reconciliations and lookups, with any tables and failures, every manager in the map has an open channel, every stored manager that left it was closed exactly once, keys are cluster names, and stored clusters have a master, normal status and no deletion mark |
| `ClusterManagers.ManagerSet.BuildApiserverClient` | src/backend/client/client.go:49-99 | a read failure or an unchanged snapshot changes nothing; else the records become the reconciled ones and each manager is kept or new according to its own row's outcome |
| `ClusterManagers.ManagerSet.Rebuild` | src/backend/client/client.go:60-94 | what left the snapshot is closed and removed, what could be built is replaced, and all else keeps its manager |
| `ClusterManagers.ManagerSet.BuildManagers` | src/backend/client/client.go:62-94 | a manager is made for exactly the rows with a master whose client and cache could be built |
| `ClusterManagers.ManagerSet.BuildOne` | src/backend/client/client.go:63-94 | a row that cannot be built leaves the map alone; one that can puts a new open manager at its name |
| `ClusterManagers.ManagerSet.Store` | src/backend/client/client.go:88-94 | storing closes the manager that was there, and only that one |
| `ClusterManagers.ManagerSet.ShouldRemoveClusters` | src/backend/client/client.go:102-117 | exactly the managers named in the snapshot stay, the others are closed |
| `ClusterManagers.ManagerSet.Drop` | src/backend/client/client.go:108-115 | a removed manager is closed once and no other channel is touched |
| `ClusterManagers.ManagerSet.ClusterChanged` | src/backend/client/client.go:119-149 | the early-exit loop decides whether count, master, status or kubeconfig differ anywhere |
| `ClusterManagers.ChangedIsExact` | src/backend/client/client.go:119-149 | with unique names, no change is reported exactly when the keys are the snapshot's names and each stored record has the master, status and kubeconfig of its row |
| `ClusterManagers.SettledIff` | src/backend/client/client.go:49-99 | a second run on the same snapshot has nothing to do exactly when every row has a master and was built, or was held already with this master, status and kubeconfig |
| `ClusterManagers.ReconciledWithinSnapshot` | src/backend/client/client.go:60-94 | after any run, whatever failed, no key is outside the snapshot |
| `ClusterManagers.ReconciledAt` | src/backend/client/client.go:60-94 | what a run that finds a change makes of each name: the row read if it was built, else what was stored, and nothing for a name that was not read |
| `ClusterManagers.StoreUpToAt` | src/backend/client/client.go:62-94 | each key's record depends on the outcome of its own row only |
| `ClusterManagers.LayeredMeans` | src/backend/client/client.go:62-94 | storing the new managers one by one leaves under each name a new manager if its row was built and the old one otherwise |
| `ClusterManagers.FilterKeepsUnique` | src/backend/models/cluster.go:118-131 | the rows of normal status inherit unique names from the table, whose name column is unique |
| `ClusterManagers.GetAllNormal` | src/backend/models/cluster.go:118-131 | a snapshot has exactly the rows of the table with normal status and no deletion mark |
| `ClusterManagers.NormalInOrder` | src/backend/models/cluster.go:118-131 | and they keep their order |
| `ClusterManagers.ManagerSet.Manager` | src/backend/client/client.go:167-182 | a manager found is open and of the asked name; a known name changes nothing, an unknown one leads to the records of one reconciliation; the maintenance answer is never given |
| `ClusterManagers.ClusterManager.Close` | src/backend/client/cache.go:17-19 | closing takes an open channel and counts one closing |
| `ClusterManagers.BuildCacheController` | src/backend/client/cache.go:21-45 | success hands over a new channel never closed before |
| `Memberships.UpdateById` | src/backend/models/app_user.go:185-240 | with the flag, in statement numbers: the error is that of a failing begin, read or deletion and never that of a creation or the commit; unless one of these or the commit fails, the groups are committed that a replacement stopped at the first failing creation leaves, and else nothing changes; if no statement fails the pair's groups become exactly the requested ones; without the flag exactly the row with the given id is replaced when all three statements succeed, every other row keeping its place |
| `Memberships.UpdateDespiteCreation` | src/backend/models/app_user.go:196-239 | a call in which nothing fails but the creation that ends the loop reports success and commits |
| `Memberships.SwallowedFailure` | src/backend/models/app_user.go:196-227 | a run in which one creation fails, the update reports success, and a group the user had and the request names is gone |
| `Memberships.RequestReachedIff` | src/backend/models/app_user.go:192-227 | the committed groups are within the request, and all of it exactly when nothing from the stopping point on was missed |
| `Memberships.ReplaceGroups` | src/backend/models/app_user.go:192-227 | the two loops leave the replacement exactly when the read and the deletions succeed, one for each row of the pair that is not wanted |
| `Memberships.ReplaceAndCommit` | src/backend/models/app_user.go:192-239 | the replacement is committed exactly when these and the commit succeed, and is the request if nothing fails |
| `Memberships.ReplacedIsWithinRequest` | src/backend/models/app_user.go:192-227 | a replacement stopped anywhere is within the request, and when exactly it is all of it |
| `Memberships.CreateRequested` | src/backend/models/namespace_user.go:167-182 | the loop leaves the table in which the groups before the first failure were created, and hands on the failing group as wanted too |
| `Memberships.CreationsAdd` | src/backend/models/namespace_user.go:172-182 | creating groups one by one adds just these to the pair |
| `Memberships.CreationsKeepUnwanted` | src/backend/models/namespace_user.go:172-191 | creating wanted groups leaves what is to be deleted as it was |
| `Memberships.DeleteUnwanted` | src/backend/models/namespace_user.go:184-202 | the pair's groups are cut to the wanted ones exactly when the read and one deletion per unwanted row succeed; no other pair changes |
| `Memberships.DeleteEach` | src/backend/models/namespace_user.go:192-201 | the listed groups go exactly when as many statements succeed; the first failure ends the loop |
| `Memberships.Add` | src/backend/models/app_user.go:80-110 | with the flag, exactly the groups whose statement succeeds are added as rows behind the others unless begin or commit fails; without it one row is inserted under the next id exactly when all three statements succeed; no existing row changes |
| `Memberships.AddGroups` | src/backend/models/namespace_user.go:93-104 | a failing creation is skipped and the next ones still tried |
| `Memberships.DeleteById` | src/backend/models/app_user.go:242-258 | exactly the row, or with the flag all rows of its pair, goes, and the others keep their order; it fails exactly for an unknown id or a failing statement of its own, and then changes nothing |
| `Memberships.CreateGroups` | src/backend/models/app_user.go:203-206 | reading or creating adds one group to the pair, appends at most a row, and leaves other pairs alone |
| `Memberships.DeleteGroups` | src/backend/models/app_user.go:217-222 | deleting by the three columns takes one group from the pair, duplicates included |
| `Memberships.UnwantedAre` | src/backend/models/app_user.go:210-216 | the list to delete holds the groups of the pair that are not wanted |
| `Memberships.UnwantedCount` | src/backend/models/app_user.go:210-216 | there is one deletion for each row of the pair whose group is not wanted |
| `Memberships.CreateIs` | src/backend/models/app_user.go:203-206 | reading or creating leaves the table as it is if the pair has the group, and else appends one row under the next id |
| `Memberships.DeleteIs` | src/backend/models/app_user.go:217-222 | deleting by the three columns removes exactly the rows that have them and keeps the others in order |
| `Memberships.OutcomeIs` | src/backend/models/app_user.go:192-227 | the two loops leave the pair the groups created before the stop and the failing one if it was there; a group that stays keeps its row, no double row appears, and no other pair changes |
| `Memberships.AddOutcomeIs` | src/backend/models/namespace_user.go:93-104 | the loop of additions appends one row for each group that succeeds and was not there, and nothing else |
| `Memberships.DeleteAllIs` | src/backend/models/namespace_user.go:192-201 | deleting the listed groups one by one removes exactly their rows from the pair |
| `PublishStatuses.Serve` | src/backend/models/publish_status.go:60-129 | every run of publishing and deleting from an empty table keeps one row per key, each call taking its full effect or none; if none of its statements fails the map holds the last published template of each key |
| `PublishStatuses.ReplayKeepsLast` | src/backend/models/publish_status.go:60-129 | after every prefix of a run without failures a key has the template published last, or none if its row was deleted since or it was never published |
| `PublishStatuses.Publish` | src/backend/models/publish_status.go:60-119 | in statement numbers: the error is that of a failing begin, read, deletion or insertion and never that of the commit; unless one of these or the commit fails, the key has the template in a new last row under the next id, and the rows of all other keys are as before and in order; else nothing changes, and republishing writes nothing |
| `PublishStatuses.PublishOver` | src/backend/models/publish_status.go:76-118 | from the row that was read, the branch that writes a new row, none, or a replacement, each committed as a whole or not at all |
| `PublishStatuses.PublishNew` | src/backend/models/publish_status.go:76-83 | a new row is committed exactly when insert and commit succeed; a failing insert is reported though the commit is still issued |
| `PublishStatuses.Replace` | src/backend/models/publish_status.go:91-108 | the old row goes and the new one comes exactly when deletion, insertion and commit succeed; a failing commit is no error |
| `PublishStatuses.ReadState` | src/backend/models/publish_status.go:69-88 | the row found is the key's, with the published template, and none is found exactly for a key without a row |
| `PublishStatuses.ReplacementUpdates` | src/backend/models/publish_status.go:91-108 | deleting the key's row and inserting the new one sets the key, keeps rows unique and all other rows in order |
| `PublishStatuses.DeleteById` | src/backend/models/publish_status.go:121-129 | exactly the row goes, the others keeping their order, and its key leaves the map; it fails exactly for an unknown id or a failing statement of its own, and then changes nothing |
| `PublishStatuses.GetByClusterIsLookup` | src/backend/models/publish_status.go:50-58 | reading by key finds one row exactly when the map has the key, with its template, and never two |
| `PublishStatuses.OneRowPerKey` | src/backend/models/publish_status.go:50-58 | a key selects one row or none from a consistent table |
| `PublishStatuses.FindKey` | src/backend/models/publish_status.go:85-86 | the loop returns a row of the cluster or there is none |
| `PublishStatuses.Perform` | src/backend/models/publish_status.go:131-145 | one call of either kind takes its full effect or none, and takes it if none of its statements fails |
| `PublishStatuses.InsertIsUpdate` | src/backend/models/publish_status.go:113 | inserting a row for a new key sets that key and keeps rows unique |
| `PublishStatuses.DeleteIsRemoval` | src/backend/models/publish_status.go:91 | deleting a row by id removes its key and keeps rows unique |
| `PublishStatuses.WithoutRow` | src/backend/models/publish_status.go:91 | with unique ids a deletion removes one entry of the map |
| `PublishStatuses.KeyInEntries` | src/backend/models/publish_status.go:85-86 | the map has exactly the keys of the rows |
| `PublishStatuses.EntryOfRow` | src/backend/models/publish_status.go:88 | each row's template is what the map says for its key |
| `Groups.AddGroup` | src/backend/models/group.go:58-80 | in statement numbers: exactly when no statement up to the commit fails, a row is appended under the next id and its links are exactly those to the requested permissions, all other links keeping their order; else nothing changes; a failing commit is no error |
| `Groups.UpdateGroupById` | src/backend/models/group.go:116-146 | in statement numbers: for a known group, exactly when no statement up to the commit fails, its row is replaced by the given one, every other row keeps its place, and the links become exactly the requested ones; else nothing changes; the error is exact, and a failing commit is none |
| `Groups.DeleteGroup` | src/backend/models/group.go:150-177 | in statement numbers: exactly the rows and links of a known group go when no statement up to the commit fails, all others keeping their order; else nothing changes; the error is exact, and a failing commit is none |
| `Groups.LinksAfterAdd` | src/backend/models/group.go:70-77 | adding appends the requested links to this group's and leaves the others in order |
| `Groups.LinksAfterClear` | src/backend/models/group.go:131-132 | clearing removes all of this group's links and no other |
| `Groups.RewrittenIsChanged` | src/backend/models/group.go:126-143 | the three statements of an update together replace the row and give the requested links, row by row and link by link, and keep ids below the next one |
| `Groups.AddedIsInserted` | src/backend/models/group.go:64-77 | the two statements of an addition append one row and its links |
| `Groups.DeletedIsRemoved` | src/backend/models/group.go:162-171 | the two statements of a deletion remove exactly the rows and links of the group |
| `Groups.Rewrite` | src/backend/models/group.go:126-143 | the three statements take effect together exactly when none of them fails |
| `Groups.RewriteAndCommit` | src/backend/models/group.go:126-145 | and are committed exactly when the commit succeeds too |
| `OrderUpdates.BatchIsRowByRow` | src/backend/models/deployment.go:106-120 | the batch statement equals single-row updates from the last item to the first |
| `OrderUpdates.FirstItemWins` | src/backend/models/deployment.go:112-116 | a listed id gets the order of its first item, and no touched row falls through the CASE |
| `OrderUpdates.OrderDoesNotMatter` | src/backend/models/deployment.go:112-116 | with distinct ids, lists with the same items have the same effect |
| `OrderUpdates.RowAfterUpdates` | src/backend/models/deployment.go:112-116 | each row changes only in its order and only when listed |
| `OrderUpdates.UpdateOrders` | src/backend/models/deployment.go:106-120 | the text grown item by item is that of the batch with one WHEN and one id per item in order, and a reader of such statements with its own keywords, names and digits reads that batch from it; an empty list gives none |
| `OrderUpdates.TextUpdatesRows` | src/backend/models/deployment.go:106-120 | the text for a list, read token by token and run on any table, gives what single-row updates from the last item to the first give |
| `OrderUpdates.UpdateIsRead` | src/backend/models/deployment.go:110-116 | the text of any batch with ids reads as that batch: its branches in order, and its ids in order |
| `OrderUpdates.TextIsRead` | src/backend/models/deployment.go:110-116 | the same for all fixed pieces that are the expected tokens with spaces between them |
| `OrderUpdates.BranchesAreRead` | src/backend/models/deployment.go:112-115 | the branches are read one by one up to the keyword behind them |
| `OrderUpdates.ListIsRead` | src/backend/models/deployment.go:116 | the list of ids is read up to its parenthesis |
| `OrderUpdates.NumberIsRead` | src/backend/models/deployment.go:113-114 | a number is read by its digits up to where they end, negative ones included |
| `OrderUpdates.SqlIsSpelled` | src/backend/models/deployment.go:110-116 | the fixed pieces of the text are the tokens the reader expects |
| `OrderUpdates.TextDeterminesBatch` | src/backend/models/deployment.go:110-116 | no two batches have the same text |
| `FieldNames.FieldIsFieldName` | src/backend/models/build_sql.go:91-95 | the two-branch expression accepts exactly the non-empty strings of ASCII letters, digits and underscores that neither start with a digit nor hold two underscores in a row |
| `FieldNames.Branch1Is` | src/backend/models/build_sql.go:93 | the first branch accepts those that start with an underscore |
| `FieldNames.Branch2Is` | src/backend/models/build_sql.go:93 | the second branch accepts those that start with a letter |
| `FieldNames.StarAfter` | src/backend/models/build_sql.go:93 | the repetition of the first branch accepts the plain strings that do not start with an underscore |
| `FieldNames.StarBefore` | src/backend/models/build_sql.go:93 | that of the second accepts the plain strings that do not end with one |
| `FieldNames.CheckedIsNameBetweenSpaces` | src/backend/models/build_sql.go:90-95 | a field passes exactly when it is a field name between spaces, so it holds nothing but word characters and spaces |
| `FieldNames.RunCheckField` | src/backend/models/build_sql.go:91-95 | the simple predicate on the trimmed text decides the regular expression |
| `FieldNames.TrimIs` | src/backend/models/build_sql.go:92 | exactly the spaces at the two ends are trimmed |
| `FieldNames.BuildGroupBy` | src/backend/models/build_sql.go:57-68 | exactly the accepted fields are kept, each between the same others and untrimmed, behind the alias `T0.`; whatever is pasted behind it consists of word characters and spaces |
| `FieldNames.AcceptedInOrder` | src/backend/models/build_sql.go:60-64 | the accepted fields are those at the ascending places where the check passes |
| `FieldNames.BuildOrder` | src/backend/models/build_sql.go:70-88 | whatever is pasted behind the alias consists of word characters and spaces, and column and direction written as a request are the input; only a rejected field asks for no order |
| `QueryFilters.ClauseMeansFilters` | src/backend/models/build_sql.go:23-55 | for every order of visiting the map, the clause holds on a row exactly when every accepted filter does |
| `QueryFilters.BuildQuery` | src/backend/models/build_sql.go:23-55 | the i-th placeholder and the i-th value belong to the i-th accepted filter |
| `QueryFilters.FilterBy` | src/backend/models/build_sql.go:14-55 | the clause for one filter, by the text of its key: a plain column and `exact` hold on a row exactly when the column is the value, and `contains` with a value without pattern characters exactly when the column contains it |
| `QueryFilters.FilterMeans` | src/backend/models/build_sql.go:14-55 | the same said of the filter itself |
| `QueryFilters.OperatorsAre` | src/backend/models/build_sql.go:14-46 | a key is a column, alone or with `exact` or `contains` behind a double underscore; any other operator or a third part is not accepted |
| `QueryFilters.SplitJoin` | src/backend/models/build_sql.go:29 | the parts of a key joined with the separator are the key |
| `QueryFilters.ColumnPartIff` | src/backend/models/build_sql.go:29-49 | the part of a key that is pasted as column can be any text without a double underscore, and only such a text |
| `QueryFilters.ClauseHarmlessIff` | src/backend/models/build_sql.go:47-52 | the clause pastes only word characters and spaces when the column parts of all accepted keys hold nothing else, and only then unless the change of case removes other characters |
| `QueryFilters.ContainsMeansSubstring` | src/backend/models/build_sql.go:14-17 | the LIKE pattern of a value accepts exactly the texts that contain it if and only if the value has no pattern character |
| `QueryFilters.LiteralPrefix` | src/backend/models/build_sql.go:45 | a value without pattern characters followed by a per cent sign accepts the texts it starts |
| `QueryFilters.SampleIsAccepted` | src/backend/models/build_sql.go:45 | every value's pattern accepts its sample text, which is no longer than the value |
| `QueryFilters.SampleDiffers` | src/backend/models/build_sql.go:45 | the sample of a value with pattern characters is not the value |
| `Paging.PagesPartition` | src/backend/common/query.go:14-38 | each result below the count is on exactly one page up to the last, and pages hold them in order |
| `Paging.PagesAreNotEmpty` | src/backend/common/query.go:14-38 | every page up to the last has a result |
| `Paging.OffsetIsExact` | src/backend/common/query.go:14-20 | up to the last page the offset is the exact product, below the count, so 64 bits cannot overflow |
| `Paging.LaterPageIsEmptyIff` | src/backend/common/query.go:14-38 | a page behind the last is empty exactly when the product cut to 64 bits is neither negative nor below the count, hence whenever the product fits |
| `Paging.WrappedLaterPage` | src/backend/common/query.go:14-38 | a concrete later page that shows the first result again |
| `Paging.NonPositiveIsPageOneIff` | src/backend/common/query.go:14-20 | a non-positive page number acts as page one exactly when the distance to page one cut to 64 bits is at most 2^63, hence whenever the product fits |
| `Paging.WrappedPage` | src/backend/common/query.go:14-20 | a concrete non-positive page number with a positive offset, which only a direct caller can pass |
| `Paging.QuotientFits` | src/backend/common/query.go:26-37 | the number of pages fits 64 bits |
| `Paging.NewPageIs` | src/backend/common/query.go:26-38 | the page reports the page number, page size and count it was asked with, and as many pages as the results fill, the last perhaps in part |
| `LangObjects.Fill` | src/frontend/lang.js:11-23 | the recursive loop returns its target, changed in place, holding what the specification of fill says; it touches no object but the target's and new ones |
| `LangObjects.FillOne` | src/frontend/lang.js:13-21 | one round sets one property of the object as the specification merges it |
| `LangObjects.PutText` | src/frontend/lang.js:18 | storing a text in a property changes this property only |
| `LangTrees.FillLookup` | src/frontend/lang.js:11-23 | what stands at each path of the result, from target and source at that path alone |
| `LangTrees.CoversUnlessClash` | src/frontend/lang.js:11-23 | every path of the source arrives exactly when the target has no text where the source has a non-empty object |
| `LangTrees.FillKeepsAndAddsNothing` | src/frontend/lang.js:11-23 | every non-empty value and inner node of the target stays, and nothing appears that neither tree has |
| `LangTrees.FillAdds` | src/frontend/lang.js:11-23 | an empty text of the target is filled where the source has a text, a missing path gets the node of the source unless a text stands on the way, and a missing target becomes the source |
| `LangTrees.FillKeepsKeyOrder` | src/frontend/lang.js:13-21 | the target's keys keep their places, and behind them come the other keys of the source in its order |
| `LangTrees.FillTwice` | src/frontend/lang.js:11-23 | filling a filled target changes nothing |
| `LangTrees.GetFill` | src/frontend/lang.js:13-21 | each property of the result is merged if the source has the key and the target's own otherwise |
| `LangTrees.BlockedPathIsClash` | src/frontend/lang.js:14-15 | a path of the source that a text of the target blocks comes from a clash |
| `LangTrees.ClashIsBlockedPath` | src/frontend/lang.js:14-15 | each clash has a path of the source that does not arrive |
| `LangFormat.FormatIsSpaced` | src/frontend/lang.js:52-62 | the two passes insert one space exactly before each unit where Chinese meets Latin, or Latin meets Chinese outside the exception, and do nothing else |
| `LangFormat.FormatTwice` | src/frontend/lang.js:52-62 | formatting a formatted text changes nothing |
| `LangFormat.OnlyTheExceptionIsLeft` | src/frontend/lang.js:51-62 | in a formatted text the scripts touch nowhere but inside the exact exception |
| `LangFormat.FormatOfTwo` | src/frontend/lang.js:52-62 | in numbers: two code units get a space between them exactly when one is an ideograph and the other an ASCII letter |
| `LangFormat.FormatOfException` | src/frontend/lang.js:51-62 | the one exception stays as it is |
| `LangFormat.RunsAreTheMatch` | src/frontend/lang.js:52-57 | whatever a matcher tries, the two groups can only meet at the end of the first run, and the longest match takes both runs |
| `LangFormat.ReplaceIsSpaced` | src/frontend/lang.js:52-57 | a global replacement is an insertion of spaces decided place by place |
| `LangFormat.MarksOfMatch` | src/frontend/lang.js:53-56 | inside a match a space goes in at the meeting of the groups only, and there unless the match is the exception |
| `LangFormat.ExemptStays` | src/frontend/lang.js:51-62 | inserting spaces elsewhere neither makes nor destroys an exception |
| `LangFormat.SpacedAgain` | src/frontend/lang.js:52-62 | two insertions one after the other are one insertion at the places of both |
| `LangSort.SortIsCanonical` | src/frontend/lang.js:76-86 | two trees sort to the same tree exactly when they differ in key order only |
| `LangSort.SortedLookup` | src/frontend/lang.js:76-86 | sorting keeps what stands at every path |
| `LangSort.SortedAscends` | src/frontend/lang.js:76-86 | keys ascend in every object of the result |
| `LangSort.SortTwice` | src/frontend/lang.js:76-86 | sorting a sorted tree changes nothing |
| `LangSort.Sort` | src/frontend/lang.js:76-86 | the loop over the sorted keys rebuilds each object with all its properties sorted |
| `LangSort.GetSorted` | src/frontend/lang.js:79-81 | a property of the sorted object is the sorted property, and none is gained or lost |
| `LangSort.SortAscending` | src/frontend/lang.js:79 | distinct keys are put in ascending order |
| `LangSort.LessIs` | src/frontend/lang.js:79 | one key is before another exactly when it is a proper prefix or has the smaller unit at the first difference |
| `LangSort.AscendingUnique` | src/frontend/lang.js:79 | ascending key lists with the same members are equal |

## Left out

- Kubernetes, HTTP, MySQL and beego calls: they are steps that succeed or fail. Log output is dropped.
- Concurrent calls of the cluster cache: only serial runs are modelled, see above.
- Informers started by a failing cache build: their channel is dropped unclosed (`src/backend/client/cache.go:30-37`) and belongs to no manager, so no claim is made about it.
- The result of a failed commit: the code ignores or logs it, so a nil error never means committed in these models.
- Columns that no branch looks at, time stamps among them, are dropped from the tables.
- `Groups.DeleteGroup`: rows of other tables that the ORM deletes along with a group are not part of this model.
- The unique keys of the membership tables: `TableUnique` is declared on the model types and not on the row types, so tables with duplicate rows are allowed for.
- The membership query joins the group row; a membership whose group row is missing is not part of this model.
- SQL text of WHERE, GROUP BY and ORDER BY clauses: it is kept as its parts (columns, placeholders, values); the map from camel case to snake case is an uninterpreted function, and filter values are texts already.
- `QueryFilters.FilterBy`: column names that hold a double underscore or end in an underscore; a key cuts those elsewhere.
- Of SQL the reader in `OrderUpdates` knows this one form of UPDATE only, with any spacing and its keywords in capitals; it lets a CASE without branches through, which no list of items leads to.
- A WHERE clause none of whose filters is accepted: it is modelled as an empty conjunction, while the code asks the builder for an empty WHERE.
- The other eight copies of `UpdateOrders` (config maps, cron jobs, daemon sets, autoscalers, ingresses, volume claims, secrets, stateful sets) have the same code.
- `NewPage` with a page size that is not positive: division by zero panics, and the HTTP parameters reject sizes below one. The total that online templates pass in is not modelled.
- The exponentiation and unary parsers: one operand lexeme stands for one call of them. The flags for assignment targets and cover grammars that the parser carries along are dropped.
- `BufferInts.ReadIntLE`, `BufferInts.ReadIntBE`: one to six bytes; beyond that the sums of the original are rounded.
- Offsets and lengths that are no integers.
- The unsigned and floating-point accessors, hex and latin1 coders of the Buffer.
- `LangObjects.Fill`: the target's objects form a tree, as objects read from JSON do.
- Arrays, nulls, array-index keys and keys found on prototypes in the JSON files; reading and writing the files.
- The two sets of exempt words in `format` that are empty; its input is the JSON text, any sequence of UTF-16 code units here.
- Name lookups, permission queries, plain reads and inserts, routers, OAuth2, and the rest of the swagger bundles.
