# breadwallet-core, proved

A Dafny model of the C wallet library `breadwallet-core` and proofs of what its code promises. Each module follows
one source file or one part of it; code that works in place is modelled by methods over arrays and classes, each
proved against a specification function, and the promises are lemmas about those functions.

- `Options`, `Words`, `Radix`, `VarInt`: missing values, truncated and bitwise arithmetic on numbers, positional notation, variable-length integers.
- `Poly1305`, `Aead`: the 26-bit limb arithmetic of the authenticator, and authenticated encryption around it.
- `ProbeTable`, `HashSet`: the linear-probing hash set, refined to a finite set.
- `Aes`: AES-256 with a key schedule that is expanded and rewound in place; `Fips197`, `AesStandard`: the cipher as FIPS 197
  defines it, and that it is the same.
- `MerkleBlock`, `Difficulty`: partial Merkle trees, complete and sound; the retarget rule on compact targets; proof of work.
- `Base58`, `Bech32Checksum`, `Bech32`, `Bip39`: the three text encodings.
- `Transaction`: serializer, parser and size.
- `Ledger`, `Payment`, `Wallet`: balance and unspent outputs of a transaction list, the sorted list, paying.
- `Chain`, `PeerManager`: stored blocks, relayed blocks, chain reorganisation.

`dafny verify dfyconfig.toml` checks everything.

## How the code is read

- Hashes (SHA-256, double SHA-256) are parameters. Where a proof needs it, they are assumed injective and never zero:
  a transaction's hash determines what it spends (`rank` in `Wallets`) and a block's hash determines its height
  (`depth` in `PeerManagers`), since each covers the hashes before it.
- The ChaCha20 key stream is a parameter of `Aead`. Recognising a scriptPubKey is a parameter of `Transactions`.
- Amounts, sizes and offsets are unbounded; 32- and 64-bit arithmetic is written out where the code relies on it
  (`Poly1305`, `Difficulty`, the carries of `Base58`, the bytes and checksum of `Bech32`,
  the offsets of `Transactions.Parse`).
- C strings are sequences of characters without their terminator.
- Loop bodies and steps that the C code writes inline are separate methods where a proof needs its own contract
  (`HashSet.Probe`, `HashSet.PutBack`, `Wallet.Account`, `PeerManager.Act` and others); the order of steps is the code's.
- Transactions are shared by pointer in the C code; here `allTx` maps hashes to transactions and the list holds hashes,
  so that a change of height is seen wherever the transaction is named.

## What was found

- Merkle proofs: a right root alone does not make the returned hashes transactions of the block, in three ways.
  The zero that the duplicate check returns is taken for a missing right branch one level up
  (`MerkleBlocks.RootAloneIsNotSound`); the walk then ends with SIZE_MAX as its hash index, and in no other case
  (`MerkleBlocks.GuardIffIndex`). The number of transactions, which gives the depth, is only what the block states
  (`MerkleBlocks.StatedCountIsNotSound`). And a stored zero is taken for a missing right branch and returned as a
  transaction (`MerkleBlocks.ZeroIsNotSound`). With a right root and another index than SIZE_MAX the returned hashes are
  transactions exactly when there are none, or the stated number gives the right depth and no returned hash is zero
  (`MerkleBlocks.BlockSound`). Blocks built from a tree never end with SIZE_MAX (`MerkleBlocks.BuiltBlockWalks`).
  `BRMerkleBlockIsValid` looks at none of this.
- `BRBech32Encode` counts bytes in its length check where it writes symbols. Exactly for texts of more than 90
  characters it writes past the end of its 91-byte stack buffer (`Bech32.TextFitsIff`), for example for a prefix of 19
  characters and a program of 40 bytes (`Bech32.TextCanExceedBuffer`).
- `BRBech32Decode` accepts addresses whose padding bits are not canonical: `Bech32.EncodeDecode` says exactly which
  addresses re-encode to themselves, `Bech32.NotCanonicalAccepted` is one that does not.
- `BRBIP39Decode` tolerates one trailing space and nothing else (`Bip39.DecodedIff`). `BRBIP39Encode` reads past its
  buffer above 968 bytes of data and not below (`Bip39.WindowsFitIff`).
- `BRTransactionSerialize` can report a length other than 0 for a buffer that is too short
  (`Transactions.ShortBufferReports`); the full length is reported exactly when it fits (`Transactions.ReportedIff`).
- `BRTransactionParse` adds script lengths to its offset without a check, and its test for a script's end is the
  intended one exactly when the sum does not wrap (`Transactions.EndsInsideIff`). Where it wraps the code reads outside
  the buffer, for example for a length of 2^64 - 1 (`Transactions.LongScriptPasses`), or comes back to offset 0 and
  accepts the transaction, as for a length of 2^64 - 55 (`Transactions.WrappedIsAccepted`); `Transactions.ParseTxIs` says
  exactly when.
- A relayed block that is known already is looked for by walking down from the last block, and a fork's join by walking
  down two chains; neither walk checks for having run out. The first does exactly when no block of the main chain is
  stored at the known block's height or below (`PeerManagers.PeerManager.OnMainChain`, `Chains.WalkDownRunsOut`), and
  the null pointer is then followed. The second does exactly when the chains share no stored block
  (`PeerManagers.PeerManager.FindJoin`): a null pointer is followed if the main chain is stored down as far as the new
  one (`Chains.JoinRunsOut`), and otherwise the change of chain confirms nothing (`Chains.ForkNotVisited`).
- The fee of a payment allows 34 bytes for a change output. It is too small, from some purse, exactly when the change
  takes more, which it does for a script of 25 bytes as the 253rd output (`Payments.CoveredIff`). The maximum amount
  allows as much for its recipient (`Payments.MaxOutputIff`).
- `BRSetMinus` of a set and itself removes under its own cursor without going back. That empties the set exactly when
  every item beyond the first bucket is in its home bucket (`HashSets.HashSet.MinusItself`), which two items with the
  same home in a table of size 3 are not (`ProbeTable.NotAtHome`).
- Unspent outputs can be among the spent ones when a list ends in pending transactions; `Ledger.OverlapIsTrailing`
  says exactly when, `Ledger.PendingSpendOverlaps` is such a list.
- The comment that the load factor of `BRSet` is at most 2/3 holds for the table of size 3 only
  (`HashSets.TwoThirdsOnlyAtThree`), and a capacity of 30593 misses the load limit by one item
  (`HashSets.CapacityFits`).
- The cast of the retarget timespan to `int` can wrap; `Difficulty.ClampOfCast` says exactly when that spoils the
  limited timespan, and `Difficulty.WrappedClock` shows a target that comes out a sixteenth of the exact one.
- `BRMerkleBlockIsValid` writes the target outside its 32-byte buffer exactly for size bytes above 31
  (`Difficulty.TargetFitsIff`), and `_ceil_log2` does not end for 2^31 transactions and more
  (`MerkleBlocks.ShiftsEndIff`).
- `BRWalletSetTxUnconfirmedAfter` leaves the list unsorted exactly when a height above that of unconfirmed transactions
  stays (`Wallets.Wallet.SetTxUnconfirmedAfter`).
- `BRChacha20Poly1305AEADDecrypt` returns 0 both for a bad tag and for an empty plaintext (`Aead.ZeroForBoth`).

## Model

| member | source | states |
|---|---|---|
| `Poly1305.Authenticate` | app/src/main/jni/breadwallet-core/BRCrypto.c:744-755 | for every key and message the first four words are ((message polynomial at the clamped r) mod 2^130-5, plus s) mod 2^128, as section 2.5 of RFC 7539 defines the tag |
| `Poly1305.Compress` | app/src/main/jni/breadwallet-core/BRCrypto.c:675-740 | from any carried limb state: without final the new limbs are carried again and congruent to the spec accumulator; with final the words are the tag |
| `Poly1305.AbsorbInPieces` | app/src/main/jni/breadwallet-core/BRCrypto.c:825-835 | pieces of a multiple of 16 bytes fed one after the other give the accumulator of the whole |
| `Poly1305.ClampKey` | app/src/main/jni/breadwallet-core/BRCrypto.c:680-684 | the five masked limbs stand for the clamped 128-bit r and are below 2^26 |
| `Poly1305.AbsorbBlock` | app/src/main/jni/breadwallet-core/BRCrypto.c:694-710 | one block is (h + block) * r modulo 2^130-5, and the limbs stay below 2^26, h[1] below 2^26 + 64 |
| `Poly1305.ColumnsAreProducts` | app/src/main/jni/breadwallet-core/BRCrypto.c:700-705 | the five 64-bit sums are the product modulo 2^130-5 and none of them is truncated |
| `Poly1305.CarryFits` | app/src/main/jni/breadwallet-core/BRCrypto.c:707-710 | none of the 32- and 64-bit truncations of the carry chain cuts anything off |
| `Poly1305.PaddedNumber` | app/src/main/jni/breadwallet-core/BRCrypto.c:687-698 | a short last block, closed by a 1 byte, has the number the standard gives it |
| `Poly1305.Reduce` | app/src/main/jni/breadwallet-core/BRCrypto.c:714-724 | after carrying and the masked selection h is reduced below 2^130-5 |
| `Poly1305.Pack` | app/src/main/jni/breadwallet-core/BRCrypto.c:726-728 | four words hold h modulo 2^128 |
| `Poly1305.AddPad` | app/src/main/jni/breadwallet-core/BRCrypto.c:730-734 | the words of h + s modulo 2^128 |
| `Poly1305.Finish` | app/src/main/jni/breadwallet-core/BRCrypto.c:713-735 | the final step as a whole |
| `Poly1305.ClampIsByBytes` | app/src/main/jni/breadwallet-core/BRCrypto.c:680-684 | the clamped r is the first half of the key with the top four bits of bytes 3, 7, 11 and 15 and the bottom two of bytes 4, 8 and 12 cleared, as section 2.5.1 of RFC 7539 has it |
| `Poly1305.AbsorbBlockIs` | app/src/main/jni/breadwallet-core/BRCrypto.c:694-710 | a full block with one more bit on top is added and the sum multiplied by r modulo 2^130 - 5 |
| `Poly1305.KnownSum` | app/src/main/jni/breadwallet-core/test.c:692-698 | the tag of a published vector: adding the second half of the key wraps at 2^128 |
| `Poly1305.KnownRemainder` | app/src/main/jni/breadwallet-core/test.c:716-721 | another, with a remainder just below 2^130 - 5 |
| `Poly1305.KnownTag` | app/src/main/jni/breadwallet-core/test.c:723-729 | another, of four blocks and an r of two words |
| `Aead.Encrypt` | app/src/main/jni/breadwallet-core/BRCrypto.c:808-839 | writes exactly the sealed message (ciphertext, then the tag over associated data, ciphertext and lengths), or returns 0, or the length needed |
| `Aead.Decrypt` | app/src/main/jni/breadwallet-core/BRCrypto.c:841-874 | writes the plaintext exactly when the tag is the one of the ciphertext; otherwise nothing is decrypted |
| `Aead.OpenIffSealed` | app/src/main/jni/breadwallet-core/BRCrypto.c:841-874 | opening a message succeeds if and only if it is a sealed one, and returns what was sealed |
| `Aead.CryptTwice` | app/src/main/jni/breadwallet-core/BRCrypto.c:828-872 | adding the key stream twice gives the data back |
| `Aead.XorBit` | app/src/main/jni/breadwallet-core/BRCrypto.c:828-872 | bit k of a sum with the key stream is set when it is in just one of the two bytes |
| `Aead.MacDataLayout` | app/src/main/jni/breadwallet-core/BRCrypto.c:824-835 | authenticated are the associated data and the ciphertext, each with zeros up to a multiple of 16 bytes, and their lengths in 8 little-endian bytes, in that order |
| `Aead.SealLayout` | app/src/main/jni/breadwallet-core/BRCrypto.c:808-839 | byte i of a sealed message is byte i of the data plus byte 64 + i of the key stream, and its last 16 bytes are the tag under the first 32 bytes of the key stream |
| `Aead.ComputeTag` | app/src/main/jni/breadwallet-core/BRCrypto.c:824-835 | the pieces fed to the authenticator are the padded data and both lengths, as one message |
| `Aead.SameTag` | app/src/main/jni/breadwallet-core/BRCrypto.c:870-871 | the comparison without branches is zero exactly for equal tags |
| `Aead.ZeroForBoth` | app/src/main/jni/breadwallet-core/BRCrypto.c:871-873 | the sealed empty message is opened, any other message of 16 bytes is not, and the result is 0 for both |
| `ProbeTable.StopDecides` | app/src/main/jni/breadwallet-core/BRSet.c:193-208 | when probing stops at an empty bucket nothing equal is in the table |
| `ProbeTable.StoreAtStop` | app/src/main/jni/breadwallet-core/BRSet.c:108-114 | storing where probing stops keeps every item reachable, items distinct, and replaces exactly the equal item |
| `ProbeTable.CleaningStep` | app/src/main/jni/breadwallet-core/BRSet.c:140-146 | taking one item of the trailing cluster out and putting it back keeps the cleanup invariant, also across the end of the table |
| `ProbeTable.CleaningEnds` | app/src/main/jni/breadwallet-core/BRSet.c:140-147 | when the cleanup stops every item is reachable again |
| `ProbeTable.BehindCursor` | app/src/main/jni/breadwallet-core/BRSet.c:304-314 | a removal at the cursor moves nothing that was not behind the cursor to behind it |
| `ProbeTable.EnumerationComplete` | app/src/main/jni/breadwallet-core/BRSet.c:212-233 | bucket order names every item once |
| `HashSets.HashSet.constructor` | app/src/main/jni/breadwallet-core/BRSet.c:49-83 | an empty set of the chosen size |
| `HashSets.CapacityFits` | app/src/main/jni/breadwallet-core/BRSet.c:56-64 | a new set takes its capacity without growing, for every capacity but 30593 |
| `HashSets.SizesGrow` | app/src/main/jni/breadwallet-core/BRSet.c:32-39 | the sizes increase and each takes as many items as the one before has buckets, with one exception that misses by one |
| `HashSets.TwoThirdsOnlyAtThree` | app/src/main/jni/breadwallet-core/BRSet.c:30-115 | a table may be filled to at most two thirds in the size 3 only |
| `HashSets.LimitBelowSize` | app/src/main/jni/breadwallet-core/BRSet.c:115 | the load limit leaves an empty bucket, so every probe ends |
| `HashSets.HashSet.Add` | app/src/main/jni/breadwallet-core/BRSet.c:99-117 | adds the item or replaces its equal, returns the replaced one, keeps the count exact and the table reachable, and grows only above the limit |
| `HashSets.HashSet.Grow` | app/src/main/jni/breadwallet-core/BRSet.c:86-96 | the contents and the count stay, the table is the next larger one |
| `HashSets.HashSet.Remove` | app/src/main/jni/breadwallet-core/BRSet.c:120-150 | exactly the equal item is gone, nothing else is lost, the table does not grow, items only moved back within the cluster, and none moved if all stay reachable without the removed one |
| `HashSets.HashSet.Get` | app/src/main/jni/breadwallet-core/BRSet.c:193-208 | finds the equal item if and only if there is one |
| `HashSets.HashSet.Contains` | app/src/main/jni/breadwallet-core/BRSet.c:170-173 | whether there is an equal item |
| `HashSets.HashSet.Clear` | app/src/main/jni/breadwallet-core/BRSet.c:153-159 | the empty set in the same table |
| `HashSets.HashSet.Union` | app/src/main/jni/breadwallet-core/BRSet.c:269-281 | the union, the other set winning on equal items; a set united with itself stays as it is |
| `HashSets.HashSet.Minus` | app/src/main/jni/breadwallet-core/BRSet.c:284-296 | the items without an equal in the other set |
| `HashSets.HashSet.MinusItself` | app/src/main/jni/breadwallet-core/BRSet.c:284-296 | a set minus itself is empty if and only if every item beyond the first bucket was in its home bucket |
| `ProbeTable.AllStayed` | app/src/main/jni/breadwallet-core/BRSet.c:134-147 | if nothing moves into the bucket that a removal emptied, nothing moves at all |
| `ProbeTable.AtHomeIff` | app/src/main/jni/breadwallet-core/BRSet.c:284-296 | taking the items out in bucket order moves none of the others if and only if every item beyond the first bucket is in its home bucket |
| `ProbeTable.NotAtHome` | app/src/main/jni/breadwallet-core/BRSet.c:284-296 | such a table: size 3, two items whose home is the first bucket |
| `HashSets.HashSet.Intersect` | app/src/main/jni/breadwallet-core/BRSet.c:299-315 | exactly the items with an equal in the other set, although it removes under its own cursor; (itemCount, size - i) decreases |
| `HashSets.HashSet.Intersects` | app/src/main/jni/breadwallet-core/BRSet.c:176-190 | whether some item of the other set has an equal |
| `HashSets.HashSet.Iterate` | app/src/main/jni/breadwallet-core/BRSet.c:212-233 | the successor in bucket order of the equal item, or of the bucket where probing stops, so that repeated calls name every item once |
| `Aes.DecryptUndoesEncrypt` | app/src/main/jni/breadwallet-core/BRBIP38Key.c:90-173 | for every 32-byte key and 16-byte block decryption gives the block back |
| `Aes.SboxInvAfterSbox` | app/src/main/jni/breadwallet-core/BRBIP38Key.c:50-86 | the two substitution tables are inverse on all 256 bytes |
| `Aes.UnmixMix` | app/src/main/jni/breadwallet-core/BRBIP38Key.c:108-151 | unmixing a column undoes mixing it |
| `Aes.MixIsMatrix` | app/src/main/jni/breadwallet-core/BRBIP38Key.c:108-111 | the shortened column arithmetic is the matrix of section 5.1.3 of FIPS 197 |
| `Aes.RoundsMirror` | app/src/main/jni/breadwallet-core/BRBIP38Key.c:144-166 | decryption round i + 1 reaches the state inside encryption round 13 - i, with the round keys in reverse order |
| `Aes.EncryptInPlace` | app/src/main/jni/breadwallet-core/BRBIP38Key.c:90-126 | the in-place rounds over the state and the schedule compute the encryption |
| `Aes.DecryptInPlace` | app/src/main/jni/breadwallet-core/BRBIP38Key.c:128-173 | the in-place rounds and the rewound schedule compute the decryption |
| `Aes.ExpandInPlace` | app/src/main/jni/breadwallet-core/BRBIP38Key.c:113-118 | eight words of schedule are replaced by the next eight (section 5.2 of FIPS 197) |
| `Aes.UnexpandInPlace` | app/src/main/jni/breadwallet-core/BRBIP38Key.c:159-165 | and taken back |
| `AesStandard.XtIsTimes` | app/src/main/jni/breadwallet-core/BRBIP38Key.c:88 | the macro multiplies by x modulo x^8 + x^4 + x^3 + x + 1 |
| `AesStandard.XtInvIsQuotient` | app/src/main/jni/breadwallet-core/BRBIP38Key.c:163 | the rewound round constant times x is the one before |
| `AesStandard.SboxIsStandard` | app/src/main/jni/breadwallet-core/BRBIP38Key.c:50-67 | for each of the 256 bytes the table holds the affine image of the inverse in that field, as section 5.1.1 of FIPS 197 has it |
| `AesStandard.ShiftIsStandard` | app/src/main/jni/breadwallet-core/BRBIP38Key.c:104-106 | row r of the state is rotated left by r |
| `AesStandard.MixIsStandard` | app/src/main/jni/breadwallet-core/BRBIP38Key.c:108-111 | each column is multiplied by the matrix with the coefficients 2, 3, 1 and 1 of that field |
| `AesStandard.KeyIsStandard` | app/src/main/jni/breadwallet-core/BRBIP38Key.c:113-118 | after n expansions the schedule holds words 8n to 8n + 7 of the key expansion of section 5.2 of FIPS 197 |
| `AesStandard.RoundsAreStandard` | app/src/main/jni/breadwallet-core/BRBIP38Key.c:99-124 | after round key i is added the state is that of the cipher of section 5.1 of FIPS 197 |
| `AesStandard.EncryptIsCipher` | app/src/main/jni/breadwallet-core/BRBIP38Key.c:90-126 | so for every key and block the encryption is that cipher |
| `MerkleBlocks.CeilLog2ByShifts` | app/src/main/jni/breadwallet-core/BRMerkleBlock.c:37-43 | the shifting loop finds the least k with n <= 2^k |
| `MerkleBlocks.RootByRows` | app/src/main/jni/breadwallet-core/BRMerkleBlock.c:46-51 | the recursive root is the root of the row-by-row construction that duplicates an odd last hash |
| `MerkleBlocks.Walker.RootR` | app/src/main/jni/breadwallet-core/BRMerkleBlock.c:241-264 | the recursive walk with its two indices computes the walk function |
| `MerkleBlocks.Walker.TxHashesR` | app/src/main/jni/breadwallet-core/BRMerkleBlock.c:185-209 | the same for the collection of matched hashes, with and without a buffer |
| `MerkleBlocks.TxHashes` | app/src/main/jni/breadwallet-core/BRMerkleBlock.c:212-221 | writes the hashes of flagged leaves in order, as many as fit, or counts them |
| `MerkleBlocks.BuiltBlockWalks` | app/src/main/jni/breadwallet-core/BRMerkleBlock.c:185-264 | for every tree and match set, walking the BIP 37 encoding gives the Merkle root and exactly the matched hashes in order |
| `MerkleBlocks.WalkEncoding` | app/src/main/jni/breadwallet-core/BRMerkleBlock.c:185-264 | both walks use up exactly the encoding of a subtree, although they recurse into right branches that do not exist |
| `MerkleBlocks.PackedFlag` | app/src/main/jni/breadwallet-core/BRMerkleBlock.c:191-192 | packed flag bits are read back |
| `MerkleBlocks.GuardIffIndex` | app/src/main/jni/breadwallet-core/BRMerkleBlock.c:241-264 | the duplicate check fired somewhere in the walk if and only if the walk ends with SIZE_MAX as its hash index |
| `MerkleBlocks.BlockSound` | app/src/main/jni/breadwallet-core/BRMerkleBlock.c:185-264 | of a block with the right root and another final index than SIZE_MAX the returned hashes are all transactions of the tree if and only if there are none, or the stated count gives the depth of the tree and none of them is zero; only-if for trees none of whose transactions is zero or the hash of an inner node |
| `MerkleBlocks.TooShallow` | app/src/main/jni/breadwallet-core/BRMerkleBlock.c:185-264 | a walk that ends above the leaves returns hashes of inner nodes, and zeros, only |
| `MerkleBlocks.TooDeep` | app/src/main/jni/breadwallet-core/BRMerkleBlock.c:185-264 | a walk that would go on below the leaves returns zeros only |
| `MerkleBlocks.StatedCountIsNotSound` | app/src/main/jni/breadwallet-core/BRMerkleBlock.c:185-264 | a block with the right root and a silent check that states two transactions instead of four and returns an inner node |
| `MerkleBlocks.ZeroIsNotSound` | app/src/main/jni/breadwallet-core/BRMerkleBlock.c:185-264 | a block with the right root, the right count and a silent check that returns a zero in place of a missing right branch |
| `MerkleBlocks.RootAloneIsNotSound` | app/src/main/jni/breadwallet-core/BRMerkleBlock.c:254-258 | a block with the right root that returns hashes outside the tree: the zero of the check is taken for a missing branch one level up, and only the hash index tells |
| `MerkleBlocks.ShiftsEndIff` | app/src/main/jni/breadwallet-core/BRMerkleBlock.c:37-43 | the shifting loop ends if and only if the signed number is not negative |
| `MerkleBlocks.WalksAgree` | app/src/main/jni/breadwallet-core/BRMerkleBlock.c:185-264 | while the check does not fire the two walks visit the same nodes |
| `Difficulty.RetargetIsExact` | app/src/main/jni/breadwallet-core/BRMerkleBlock.c:341-357 | for every timespan and normal previous target the 64-bit compact computation equals the compact form of min(limit, floor(T * clamped timespan / 1209600)) |
| `Difficulty.ClampOfCast` | app/src/main/jni/breadwallet-core/BRMerkleBlock.c:341-346 | the cast of the time difference to int does no harm if and only if the condition on the difference holds |
| `Difficulty.TransitionExact` | app/src/main/jni/breadwallet-core/BRMerkleBlock.c:327-364 | for every pair of clocks whose difference the cast does not spoil, a transition block is accepted exactly when it states the exactly scaled target |
| `Difficulty.WrappedClock` | app/src/main/jni/breadwallet-core/BRMerkleBlock.c:341-359 | a clock difference for which the demanded target is a sixteenth of the exact one |
| `Difficulty.PastTransitions` | app/src/main/jni/breadwallet-core/BRMerkleBlock.c:341-359 | four transitions of the Bitcoin block chain get the targets they had: an ordinary one, one at the easiest target, one limited to a quarter and one to four times |
| `Difficulty.TargetFitsIff` | app/src/main/jni/breadwallet-core/BRMerkleBlock.c:288-291 | the four target bytes stay inside the 32-byte buffer exactly for size bytes up to 31; larger ones are out of range but written |
| `Difficulty.VerifyDifficulty` | app/src/main/jni/breadwallet-core/BRMerkleBlock.c:327-364 | accepts exactly blocks whose previous hash and height follow the previous block, with its target between transitions, and the demanded one at a transition whose start is known |
| `Difficulty.TransitionTarget` | app/src/main/jni/breadwallet-core/BRMerkleBlock.c:341-359 | no step of the 64-bit arithmetic overflows |
| `Difficulty.NormalizeLoop` | app/src/main/jni/breadwallet-core/BRMerkleBlock.c:354 | the loop drops whole bytes until the mantissa is normal |
| `Difficulty.NormalizeTruncates` | app/src/main/jni/breadwallet-core/BRMerkleBlock.c:354 | what it leaves is the truncated compact form |
| `Difficulty.CompactUnique` | app/src/main/jni/breadwallet-core/BRMerkleBlock.c:273-276 | a normal mantissa and size that bracket a number are its compact form |
| `Difficulty.IsValid` | app/src/main/jni/breadwallet-core/BRMerkleBlock.c:269-299 | true exactly when the root is right, the time is at most two hours ahead, the target is positive and at most 0xffff with size 0x1d, and the hash, as a little-endian number, is at most the target |
| `Difficulty.SomeTargetValues` | app/src/main/jni/breadwallet-core/BRMerkleBlock.c:272-291 | the numbers of the easiest target and of targets with small sizes |
| `Difficulty.TopByteDecides` | app/src/main/jni/breadwallet-core/BRMerkleBlock.c:293-296 | the most significant differing byte decides the comparison |
| `Base58.DecodeEncode` | app/src/main/jni/breadwallet-core/BRBase58.c:36-142 | decoding an encoded byte string gives it back, leading zeros included, for every byte string |
| `Base58.EncodeDecode` | app/src/main/jni/breadwallet-core/BRBase58.c:36-142 | encoding a decoded valid string gives it back |
| `Base58.DecodeStopsAtBadDigit` | app/src/main/jni/breadwallet-core/BRBase58.c:83-121 | for every string decoding depends on, and re-encodes to, the part before the first bad character |
| `Base58.MultiplyAdd` | app/src/main/jni/breadwallet-core/BRBase58.c:49-58 | one carry pass multiplies the number in the buffer and adds, without overflow of the 32-bit carry and without a carry left over when the result fits |
| `Base58.EncodeBufferFits` | app/src/main/jni/breadwallet-core/BRBase58.c:45 | n * 138 / 100 + 1 digits hold every number of n bytes |
| `Base58.DecodeBufferFits` | app/src/main/jni/breadwallet-core/BRBase58.c:85 | n * 733 / 1000 + 1 bytes hold every number of n digits |
| `Base58.AlphabetInverse` | app/src/main/jni/breadwallet-core/BRBase58.c:38-119 | the switch of the decoder inverts the table of the encoder |
| `Base58.AlphabetAscends` | app/src/main/jni/breadwallet-core/BRBase58.c:38 | its letters are the ASCII digits and letters but 0, O, I and l, in ascending order |
| `Base58.KnownTexts` | app/src/main/jni/breadwallet-core/BRBase58.c:36-74 | the texts of three byte strings |
| `Base58.ToDigits` | app/src/main/jni/breadwallet-core/BRBase58.c:45-62 | the digit buffer ends as the canonical base-58 digits of the number |
| `Base58.ToBytes` | app/src/main/jni/breadwallet-core/BRBase58.c:85-132 | the byte buffer ends as the canonical bytes of the valid digits |
| `Base58.Encode` | app/src/main/jni/breadwallet-core/BRBase58.c:36-74 | writes the text and its terminator, or returns the length needed, or 0 and nothing |
| `Base58.Decode` | app/src/main/jni/breadwallet-core/BRBase58.c:77-142 | the same for bytes |
| `Base58.CheckDecodeEncode` | app/src/main/jni/breadwallet-core/BRBase58.c:145-186 | the checksummed round trip for every payload |
| `Base58.CheckLayout` | app/src/main/jni/breadwallet-core/BRBase58.c:145-162 | the text stands for the payload and the first four bytes of its hash |
| `Base58.CheckAccepts` | app/src/main/jni/breadwallet-core/BRBase58.c:165-186 | a nonempty payload is accepted if and only if the string, up to its first bad character, is its encoding |
| `Base58.DecodedLength` | app/src/main/jni/breadwallet-core/BRBase58.c:167-171 | a string never decodes to more bytes than it has characters, so the buffer is large enough |
| `Base58.CheckEncode` | app/src/main/jni/breadwallet-core/BRBase58.c:145-162 | writes the text of payload and checksum |
| `Base58.CheckDecode` | app/src/main/jni/breadwallet-core/BRBase58.c:165-186 | writes the payload exactly when the checksum is right |
| `Radix.FromNatOfValue` | app/src/main/jni/breadwallet-core/BRBase58.c:60-62 | a number determines its digits up to leading zeros |
| `Radix.Window` | app/src/main/jni/breadwallet-core/BRBIP39Mnemonic.c:48-49 | a digit of a number is found in the few neighbouring digits of another base that cover it |
| `Bech32Checksum.PolymodLinear` | app/src/main/jni/breadwallet-core/BRBech32.c:37-39 | one step is linear over xor |
| `Bech32Checksum.PolymodInjective` | app/src/main/jni/breadwallet-core/BRBech32.c:37-39 | and loses nothing of a 30-bit state |
| `Bech32Checksum.PolymodIsRemainder` | app/src/main/jni/breadwallet-core/BRBech32.c:37-39 | one step multiplies the six coefficients over GF(32) by x and takes the remainder by the generator x^6 + 29x^5 + 22x^4 + 20x^3 + 21x^2 + 29x + 18 of BIP 173 |
| `Bech32Checksum.SixSymbolsForceOne` | app/src/main/jni/breadwallet-core/BRBech32.c:138-140 | exactly one choice of six symbols takes a state to 1, and it is the one the encoder appends |
| `Bech32Checksum.BurstChangesState` | app/src/main/jni/breadwallet-core/BRBech32.c:79-88 | different symbols within six neighbouring places always end in different states |
| `Bech32.DecodeEncode` | app/src/main/jni/breadwallet-core/BRBech32.c:42-144 | for every nonempty valid lower-case human-readable part, version 0..16 and program of 2..40 bytes that fits 90 characters, decoding gives them back |
| `Bech32.EncodeDecode` | app/src/main/jni/breadwallet-core/BRBech32.c:42-97 | an accepted address re-encodes to itself in lower case if and only if its padding bits are canonical |
| `Bech32.AcceptedIff` | app/src/main/jni/breadwallet-core/BRBech32.c:42-97 | exactly the addresses of 8 to 90 printable characters, not of both cases, with a nonempty prefix before the last 1, symbols only behind it, a right checksum, a version up to 16 and a program of 2 to 40 bytes are accepted, and what they decode to |
| `Bech32.NeedsSeparator` | app/src/main/jni/breadwallet-core/BRBech32.c:54-58 | without a separator nothing is |
| `Bech32.ExpandLayout` | app/src/main/jni/breadwallet-core/BRBech32.c:61-63 | the checksum covers the high bits of the prefix, a zero, and its low five bits |
| `Bech32.CharsetIs` | app/src/main/jni/breadwallet-core/BRBech32.c:67-76 | the symbol characters are the letters and digits but 1, b, i and o |
| `Bech32.DecodedIsEncodable` | app/src/main/jni/breadwallet-core/BRBech32.c:101-126 | every program that decoding yields, encoding takes |
| `Bech32.NotCanonicalAccepted` | app/src/main/jni/breadwallet-core/BRBech32.c:66-97 | an accepted address whose padding is not canonical |
| `Bech32.TextFitsIff` | app/src/main/jni/breadwallet-core/BRBech32.c:104-142 | of the texts the encoder would write exactly those of at most 90 characters fit its 91-byte buffer |
| `Bech32.TextCanExceedBuffer` | app/src/main/jni/breadwallet-core/BRBech32.c:104-142 | a prefix and program that pass the length check and do not fit |
| `Bech32.BurstDetected` | app/src/main/jni/breadwallet-core/BRBech32.c:42-97 | an address that differs from an accepted one only within six neighbouring data characters is rejected |
| `Bech32.BytesOfSymbols` | app/src/main/jni/breadwallet-core/BRBech32.c:81-84 | the five-to-eight regrouping undoes the eight-to-five one |
| `Bech32.SymbolsOfBytes` | app/src/main/jni/breadwallet-core/BRBech32.c:129-136 | and the other way exactly for canonical padding |
| `Bech32.GroupByte` | app/src/main/jni/breadwallet-core/BRBech32.c:130-135 | one more byte completes one symbol or two, and the waiting bits stay exact |
| `Bech32.CollectSymbol` | app/src/main/jni/breadwallet-core/BRBech32.c:82-84 | one more symbol lands in one byte or in two, without disturbing the bits before it |
| `Bech32.PutProgram` | app/src/main/jni/breadwallet-core/BRBech32.c:129-136 | the loop writes exactly the symbols of the program and feeds them to the checksum |
| `Bech32.PutCheck` | app/src/main/jni/breadwallet-core/BRBech32.c:138-141 | the six last symbols and the terminator |
| `Bech32.ReadSymbols` | app/src/main/jni/breadwallet-core/BRBech32.c:66-85 | the loop rejects bad characters, and otherwise collects checksum, version and the program bytes within its 52-byte buffer |
| `Bech32.Encode` | app/src/main/jni/breadwallet-core/BRBech32.c:101-144 | writes the address of the witness program, or returns 0 and writes nothing |
| `Bech32.Decode` | app/src/main/jni/breadwallet-core/BRBech32.c:42-97 | writes prefix and program exactly for accepted addresses |
| `Bip39.DecodedIff` | app/src/main/jni/breadwallet-core/BRBIP39Mnemonic.c:32-111 | for every entropy of 4..32 bytes a phrase decodes to it if and only if it is its encoding, or that and one space |
| `Bip39.DecodeEncode` | app/src/main/jni/breadwallet-core/BRBIP39Mnemonic.c:32-111 | decoding undoes encoding, for every list of 2048 distinct nonempty words without spaces |
| `Bip39.EntropyIff` | app/src/main/jni/breadwallet-core/BRBIP39Mnemonic.c:87-101 | word numbers give an entropy exactly when they are the words of that entropy and its checksum |
| `Bip39.IndicesValue` | app/src/main/jni/breadwallet-core/BRBIP39Mnemonic.c:42-49 | the word numbers of 4k bytes, as digits in base 2048, are the bytes followed by the first k bits of their hash |
| `Bip39.WordNumberIsIndex` | app/src/main/jni/breadwallet-core/BRBIP39Mnemonic.c:47-49 | the 32-bit window of the encoder yields the right 11 bits |
| `Bip39.WindowsFitIff` | app/src/main/jni/breadwallet-core/BRBIP39Mnemonic.c:47-48 | every 32-bit window of the encoder lies inside its buffer exactly up to 968 bytes of data |
| `Bip39.ByteNumberIsByte` | app/src/main/jni/breadwallet-core/BRBIP39Mnemonic.c:90-95 | the 22-bit window of the decoder yields the right 8 bits |
| `Bip39.ParseIff` | app/src/main/jni/breadwallet-core/BRBIP39Mnemonic.c:73-87 | a text parses to given words exactly when it is their phrase, or that and one space |
| `Bip39.FirstWord` | app/src/main/jni/breadwallet-core/BRBIP39Mnemonic.c:74-79 | the prefix comparison finds a word exactly when it is the text up to the next space |
| `Bip39.Encode` | app/src/main/jni/breadwallet-core/BRBIP39Mnemonic.c:32-60 | writes the phrase, or as much of it as fits, and reports the length or 0 |
| `Bip39.ReadWords` | app/src/main/jni/breadwallet-core/BRBIP39Mnemonic.c:73-87 | the word loop parses at most 24 words |
| `Bip39.CheckWords` | app/src/main/jni/breadwallet-core/BRBIP39Mnemonic.c:88-102 | the byte loop and the checksum comparison |
| `Bip39.Decode` | app/src/main/jni/breadwallet-core/BRBIP39Mnemonic.c:63-111 | writes the entropy of an accepted phrase |
| `Ledger.BooksBalance` | app/src/main/jni/breadwallet-core/BRWallet.c:168-244 | after any list the balance is the sum of the unspent outputs and equals received minus sent |
| `Ledger.HistoryIsPrefixBalance` | app/src/main/jni/breadwallet-core/BRWallet.c:168-241 | entry k of the history is the balance of the first k + 1 transactions |
| `Ledger.ReceivedIsRises` | app/src/main/jni/breadwallet-core/BRWallet.c:237-240 | the total received is by how much the history goes up, from 0 on |
| `Ledger.UsedIff` | app/src/main/jni/breadwallet-core/BRWallet.c:218-220 | the used addresses are those that transactions neither invalid nor pending pay to |
| `Ledger.UtxosAreOwn` | app/src/main/jni/breadwallet-core/BRWallet.c:214-235 | every unspent output is the wallet's own, listed once, of a transaction neither invalid nor pending |
| `Ledger.SpentAreInputs` | app/src/main/jni/breadwallet-core/BRWallet.c:185-188 | the spent outputs are exactly the inputs of transactions that are not invalid |
| `Ledger.NoDoubleSpend` | app/src/main/jni/breadwallet-core/BRWallet.c:171-188 | a valid unconfirmed transaction shares no input with an earlier valid one |
| `Ledger.InvalidIff` | app/src/main/jni/breadwallet-core/BRWallet.c:170-182 | for every list: exactly the unconfirmed transactions are invalid that share an input with an earlier one that is not, or spend from an earlier one that is |
| `Ledger.PendingIff` | app/src/main/jni/breadwallet-core/BRWallet.c:190-211 | exactly the unconfirmed ones are pending that are not invalid and are too large, pay dust, may be replaced, are not final at the height and time, or spend from an earlier pending one |
| `Ledger.UtxosIff` | app/src/main/jni/breadwallet-core/BRWallet.c:168-241 | for every list: exactly the wallet's own outputs of transactions that are neither are unspent that nothing valid spends up to the last such transaction |
| `Ledger.ConfirmedUtxos` | app/src/main/jni/breadwallet-core/BRWallet.c:168-241 | for confirmed transactions exactly the own outputs no listed transaction spends are unspent |
| `Ledger.OrderDoesNotMatter` | app/src/main/jni/breadwallet-core/BRWallet.c:229-235 | for confirmed transactions the unspent outputs and the balance do not depend on the order of the list |
| `Ledger.OverlapIsTrailing` | app/src/main/jni/breadwallet-core/BRWallet.c:207-211 | an unspent output is also among the spent ones if and only if a pending transaction after the last credited one spends it |
| `Ledger.PendingSpendOverlaps` | app/src/main/jni/breadwallet-core/BRWallet.c:207-211 | a two-transaction list that ends so |
| `Wallets.Wallet.UpdateBalance` | app/src/main/jni/breadwallet-core/BRWallet.c:151-245 | the nested loops leave the books of the list, which the lemmas of `Ledger` say |
| `Wallets.Wallet.DropSpent` | app/src/main/jni/breadwallet-core/BRWallet.c:229-235 | the backward sweep removes exactly what is spent and its amounts |
| `Wallets.Wallet.TxCompare` | app/src/main/jni/breadwallet-core/BRWallet.c:72-104 | the comparison always respects the height, whatever the tie-breaking does |
| `Wallets.Wallet.InsertTx` | app/src/main/jni/breadwallet-core/BRWallet.c:124-137 | the transaction goes behind the last one that is not later than it; the list stays sorted by height and the rest in order |
| `Wallets.Wallet.SpenderIsLater` | app/src/main/jni/breadwallet-core/BRWallet.c:72-121 | a higher transaction is later, and of two at the same height the one that spends the other |
| `Wallets.Wallet.LaterAddress` | app/src/main/jni/breadwallet-core/BRWallet.c:104-121 | of two others the one that pays the later address of a chain they both pay to |
| `Wallets.RelatedIff` | app/src/main/jni/breadwallet-core/BRWallet.c:139-150 | a transaction has to do with the wallet when it pays one of its addresses or spends an output that did |
| `Wallets.Wallet.ContainsTx` | app/src/main/jni/breadwallet-core/BRWallet.c:122-138 | whether a wallet address is paid or spent from |
| `Wallets.Wallet.RegisterTransaction` | app/src/main/jni/breadwallet-core/BRWallet.c:713-754 | keeps the wallet valid; what is added, what is only remembered, and the new books |
| `Wallets.Wallet.UpdateTransactions` | app/src/main/jni/breadwallet-core/BRWallet.c:930-969 | keeps the list sorted and its members; new heights for exactly the named transactions, the foreign confirmed ones forgotten, books made again exactly when needed |
| `Wallets.UpdatedIs` | app/src/main/jni/breadwallet-core/BRWallet.c:943-962 | which transactions have which height and time afterwards, and which are forgotten |
| `Wallets.Forgotten` | app/src/main/jni/breadwallet-core/BRWallet.c:960-963 | forgetting a foreign transaction changes no relation to the wallet |
| `Wallets.Wallet.SetTxUnconfirmedAfter` | app/src/main/jni/breadwallet-core/BRWallet.c:972-993 | exactly the transactions above the height lose theirs, and the list stays sorted if and only if nothing left lies above the height that stands for unconfirmed |
| `Wallets.Wallet.TxUnconfirmedBefore` | app/src/main/jni/breadwallet-core/BRWallet.c:426-443 | returns exactly the listed transactions at or above the height |
| `Wallets.SuffixIsAtLeast` | app/src/main/jni/breadwallet-core/BRWallet.c:433-439 | in a sorted list they are its end |
| `Payments.PaymentKeeps` | app/src/main/jni/breadwallet-core/BRWallet.c:566-656 | a payment keeps the requested outputs, adding at most one, and spends different unspent outputs whose transactions are known |
| `Payments.PaymentCovers` | app/src/main/jni/breadwallet-core/BRWallet.c:642-653 | if the change output, with what it adds to the count of outputs, takes at most 34 bytes, the inputs exceed the outputs by at least the fee of the final size |
| `Payments.CoveredIff` | app/src/main/jni/breadwallet-core/BRWallet.c:642-653 | and for any requested outputs that fit one input, this is so from every purse if and only if the change output takes at most those 34 bytes; a change script of 25 bytes as the 253rd output takes more |
| `Payments.PaymentIs` | app/src/main/jni/breadwallet-core/BRWallet.c:591-653 | a payment spends the first payable outputs in their order; what they exceed the requested outputs and the fee by goes to the change script, unless it is too small for an output |
| `Payments.NothingLost` | app/src/main/jni/breadwallet-core/BRWallet.c:631-653 | inputs exceed outputs by at most the fee for a change output, 99 for rounding, and the least amount of an output; with change by at most the fee and 99 |
| `Payments.FeeAmountIs` | app/src/main/jni/breadwallet-core/BRWallet.c:632-635 | rounding adds less than 100 and leaves a multiple of 100 of the balance |
| `Payments.EnoughIs` | app/src/main/jni/breadwallet-core/BRWallet.c:637 | inputs are enough when they pay exactly or leave a change output |
| `Payments.SelectIs` | app/src/main/jni/breadwallet-core/BRWallet.c:591-638 | as few of the payable outputs as are enough are taken, in their order, or all of them, and none if a transaction of more than 100,000 bytes comes first |
| `Payments.InsufficientIff` | app/src/main/jni/breadwallet-core/BRWallet.c:642-645 | there is no payment for want of funds exactly when nothing is requested or all payable outputs fall short |
| `Payments.MaxOutputIsPaid` | app/src/main/jni/breadwallet-core/BRWallet.c:1132-1160 | asking for the maximum never fails for want of funds, for a script of at most 25 bytes |
| `Payments.MaxOutputIff` | app/src/main/jni/breadwallet-core/BRWallet.c:1132-1160 | and from every purse this is so only for such scripts |
| `Payments.MaxOutputIs` | app/src/main/jni/breadwallet-core/BRWallet.c:1132-1160 | an amount for a script of 25 bytes can be paid from all payable outputs exactly up to the maximum |
| `Payments.SelectStops` | app/src/main/jni/breadwallet-core/BRWallet.c:591-638 | inputs are added until there is enough or none is left |
| `Payments.TxFeeMonotone` | app/src/main/jni/breadwallet-core/BRWallet.c:52-58 | a larger transaction never has a smaller fee |
| `Payments.TxFeeIs` | app/src/main/jni/breadwallet-core/BRWallet.c:52-58 | the fee is the size, or the least multiple of 100 that covers the size at the rate, whichever is more |
| `Payments.MinOutputIs` | app/src/main/jni/breadwallet-core/BRWallet.c:1120-1129 | an amount is worth an output from 546 on, and from 546 at the rate on |
| `Payments.UnsignedSize` | app/src/main/jni/breadwallet-core/BRTransaction.c:492-514 | the size used for fees is the estimated size of an unsigned transaction |
| `Payments.ShuffleOutputs` | app/src/main/jni/breadwallet-core/BRTransaction.c:475-489 | the shuffle is a permutation |
| `Wallets.Wallet.TakeInputs` | app/src/main/jni/breadwallet-core/BRWallet.c:585-638 | the selection loop with its running fee |
| `Wallets.Wallet.CreateTxForOutputs` | app/src/main/jni/breadwallet-core/BRWallet.c:566-656 | returns the payment the selection determines, shuffled when change was added |
| `Wallets.Wallet.MaxAmount` | app/src/main/jni/breadwallet-core/BRWallet.c:1132-1160 | the sum of the spendable outputs less the fee of spending them all |
| `Wallets.Wallet.CreatedTxCovers` | app/src/main/jni/breadwallet-core/BRWallet.c:566-656 | in a valid wallet, under the same condition on the change output, the returned transaction, after shuffling, still covers its own fee; what it leaves is bounded from above too, and an added output goes to the change script |
| `Wallets.Wallet.MaxAmountIsPaid` | app/src/main/jni/breadwallet-core/BRWallet.c:1132-1160 | in a valid wallet the maximum is really paid, to a script of at most 25 bytes, when spending everything is not too large |
| `Chains.WalkStep` | app/src/main/jni/breadwallet-core/BRPeerManager.c:1295-1298 | one step of the two pointers that finds both blocks leaves no common ancestor behind |
| `Chains.FirstRunsOut` | app/src/main/jni/breadwallet-core/BRPeerManager.c:1295-1298 | when the first pointer runs out the chains share no block and the main chain is stored down as far as the new one |
| `Chains.SecondRunsOut` | app/src/main/jni/breadwallet-core/BRPeerManager.c:1295-1298 | when the second one does, they share no block and the new chain is stored further down |
| `Chains.JoinRunsOut` | app/src/main/jni/breadwallet-core/BRPeerManager.c:1295-1302 | stored blocks for which the first pointer runs out, and is followed |
| `Chains.ForkNotVisited` | app/src/main/jni/breadwallet-core/BRPeerManager.c:1295-1321 | stored blocks for which the second pointer runs out, and the new branch is not visited |
| `Chains.WalkDownRunsOut` | app/src/main/jni/breadwallet-core/BRPeerManager.c:1259-1262 | stored blocks for which the walk down from the last block to a known one runs out, and is followed |
| `Chains.JoinIsUnique` | app/src/main/jni/breadwallet-core/BRPeerManager.c:1295-1298 | there is only one highest common ancestor |
| `Chains.BranchIs` | app/src/main/jni/breadwallet-core/BRPeerManager.c:1306-1321 | the blocks above the join are exactly those of the new chain that are not on the join's own chain |
| `Chains.FreedAreOld` | app/src/main/jni/breadwallet-core/BRPeerManager.c:1093-1117 | what checking a block frees lies more than 2016 blocks below it |
| `Chains.LastIsKept` | app/src/main/jni/breadwallet-core/BRPeerManager.c:1093-1117 | as long as only transitions are stored above the last block, neither the last block nor the predecessor is freed, and that stays so |
| `Chains.FreedIff` | app/src/main/jni/breadwallet-core/BRPeerManager.c:1093-1117 | exactly the blocks of the chain more than 2016 below a transition are freed that are no transitions, when all 2016 before it are stored |
| `Chains.BackIff` | app/src/main/jni/breadwallet-core/BRPeerManager.c:1097-1099 | the walk back finds the block n below if and only if it is stored on the chain |
| `PeerManagers.PeerManager.Free` | app/src/main/jni/breadwallet-core/BRPeerManager.c:1108-1116 | the freeing walk removes exactly the blocks of the chain that are no transitions |
| `PeerManagers.PeerManager.VerifyBlock` | app/src/main/jni/breadwallet-core/BRPeerManager.c:1087-1138 | the verdict on a block, and the blocks freed on the way |
| `PeerManagers.PeerManager.Decide` | app/src/main/jni/breadwallet-core/BRPeerManager.c:1187-1287 | which of the nine outcomes a relayed block has |
| `PeerManagers.PeerManager.IgnoredIff` | app/src/main/jni/breadwallet-core/BRPeerManager.c:1187-1207 | ignored are exactly late headers, whatever comes while the filter is being updated, and orphans a week old; other blocks without a stored predecessor become orphans |
| `PeerManagers.PeerManager.RejectedIff` | app/src/main/jni/breadwallet-core/BRPeerManager.c:1223-1228 | of the others exactly those are rejected that end an interval not all stored, have the wrong target or contradict a checkpoint |
| `PeerManagers.PeerManager.PassedIff` | app/src/main/jni/breadwallet-core/BRPeerManager.c:1229-1291 | and of those that pass exactly which extend the chain, are known, wait, are dropped as old forks, overtake the last block or stay aside |
| `PeerManagers.PeerManager.RelayedNew` | app/src/main/jni/breadwallet-core/BRPeerManager.c:1140-1363 | a new block that passes is stored unless it waits or does not get above the last checkpoint, and becomes the last block exactly if it is on top of it or, stored, higher |
| `PeerManagers.PeerManager.TxTimeIs` | app/src/main/jni/breadwallet-core/BRPeerManager.c:1159-1162 | transactions of a block get the midpoint of its time and that of its predecessor, one less when both are odd |
| `PeerManagers.PeerManager.FindJoin` | app/src/main/jni/breadwallet-core/BRPeerManager.c:1292-1298 | both pointers stop at the highest common ancestor if there is one; else the second runs out, just above where the first is, if the new chain is stored further down, and otherwise the first |
| `PeerManagers.PeerManager.OnMainChain` | app/src/main/jni/breadwallet-core/BRPeerManager.c:1259-1262 | the walk ends at the block if and only if it is on the main chain, and runs out if and only if nothing of the main chain is stored at its height or below |
| `PeerManagers.PeerManager.Reorganise` | app/src/main/jni/breadwallet-core/BRPeerManager.c:1291-1323 | whenever the first pointer does not run out: afterwards the listed transactions have the heights of the visited branch, others above the join none |
| `PeerManagers.ConfirmedIffMatched` | app/src/main/jni/breadwallet-core/BRPeerManager.c:1302-1321 | a listed transaction is confirmed above the join if and only if a visited block of the new branch matches it; then it has the height of such a block and the midpoint of its time and that of its predecessor, and nothing else of it changes |
| `PeerManagers.ConfirmedByChange` | app/src/main/jni/breadwallet-core/BRPeerManager.c:1288-1323 | after a block that overtakes the chain exactly those are confirmed above the join that a block matches which is on the new chain and not below the join; others above the join are unconfirmed |
| `PeerManagers.ConfirmedOnTop` | app/src/main/jni/breadwallet-core/BRPeerManager.c:1232-1239 | a block on top of the chain confirms exactly its transactions |
| `PeerManagers.ConfirmedAgain` | app/src/main/jni/breadwallet-core/BRPeerManager.c:1254-1265 | a known block does exactly when it is on the main chain |
| `PeerManagers.NothingConfirmed` | app/src/main/jni/breadwallet-core/BRPeerManager.c:1187-1287 | no other verdict changes the wallet |
| `PeerManagers.RelaysIs` | app/src/main/jni/breadwallet-core/BRPeerManager.c:1140-1363 | which blocks are stored afterwards and which is the last |
| `PeerManagers.SettledIs` | app/src/main/jni/breadwallet-core/BRPeerManager.c:1334-1363 | which orphans wait afterwards and which is relayed next |
| `PeerManagers.RaisedIs` | app/src/main/jni/breadwallet-core/BRPeerManager.c:1326-1333 | the estimated height is the highest seen |
| `PeerManagers.PeerManager.Extend` | app/src/main/jni/breadwallet-core/BRPeerManager.c:1232-1253 | a block on top of the main chain confirms its transactions |
| `PeerManagers.PeerManager.Refresh` | app/src/main/jni/breadwallet-core/BRPeerManager.c:1254-1274 | a known block confirms its transactions exactly when it is on the main chain |
| `PeerManagers.PeerManager.TakeOrphan` | app/src/main/jni/breadwallet-core/BRPeerManager.c:1334-1340 | the orphan that waited for the block is taken out and relayed next |
| `PeerManagers.PeerManager.RelayedBlock` | app/src/main/jni/breadwallet-core/BRPeerManager.c:1140-1363 | for each of the nine outcomes the new chain, wallet and orphans; heights stay consistent, the last block is never freed and the last height does not fall |
| `PeerManagers.HeightNeverFalls` | app/src/main/jni/breadwallet-core/BRPeerManager.c:1140-1363 | over any run of relayed blocks the last block stays stored and its height never goes down |
| `Transactions.RestoredIff` | app/src/main/jni/breadwallet-core/BRTransaction.c:366-429 | parsing a written transaction, with 64-bit offsets, gives it back if and only if it has an input and every input is one reading can restore |
| `Transactions.ParseSerialized` | app/src/main/jni/breadwallet-core/BRTransaction.c:366-437 | and it does so whatever bytes follow |
| `Transactions.TxLayout` | app/src/main/jni/breadwallet-core/BRTransaction.c:255-322 | 4 bytes of version, the number of inputs, the inputs, the number of outputs, the outputs, 4 bytes of lock time, at these places |
| `Transactions.InputLayout` | app/src/main/jni/breadwallet-core/BRTransaction.c:112-132 | 32 bytes of hash, 4 of index, a length and the signature or else the script, 8 of amount for an unsigned input with one, 4 of sequence, at these places |
| `Transactions.OutputLayout` | app/src/main/jni/breadwallet-core/BRTransaction.c:168-183 | 8 bytes of amount, a length and the script |
| `Transactions.InputsInOrder` | app/src/main/jni/breadwallet-core/BRTransaction.c:270-285 | input k stands behind the k before it |
| `Transactions.OutputsInOrder` | app/src/main/jni/breadwallet-core/BRTransaction.c:168-183 | and so does output k |
| `Transactions.ParsedLayout` | app/src/main/jni/breadwallet-core/BRTransaction.c:376-426 | the version of a parsed buffer is its first four bytes and the lock time its last four, and all inputs and outputs it announces are read in between |
| `Transactions.ReadInputLayout` | app/src/main/jni/breadwallet-core/BRTransaction.c:382-406 | what each part of an input is read from |
| `Transactions.ReadOutputLayout` | app/src/main/jni/breadwallet-core/BRTransaction.c:410-416 | and of an output |
| `VarInts.VarIntIs` | app/src/main/jni/breadwallet-core/BRAddress.c:70-104 | one byte below 0xfd, else a header of 0xfd, 0xfe or 0xff and 2, 4 or 8 little-endian bytes |
| `Transactions.ReportedIff` | app/src/main/jni/breadwallet-core/BRTransaction.c:255-322 | the reported length is the number of bytes if and only if there is no buffer or it is large enough |
| `Transactions.ShortBufferReports` | app/src/main/jni/breadwallet-core/BRTransaction.c:297-321 | for a shorter buffer a length other than 0 can be reported |
| `Transactions.ParseTxIs` | app/src/main/jni/breadwallet-core/BRTransaction.c:366-429 | parsing with 64-bit offsets is parsing with exact ones if and only if the end does not wrap; if it does, the code reads outside the buffer, except that it accepts what it read when the inputs end at 2^64 - 1 |
| `Transactions.EndsInsideIff` | app/src/main/jni/breadwallet-core/BRTransaction.c:392-414 | the 64-bit test that a script ends inside the buffer is the intended one exactly when the sum does not wrap |
| `Transactions.LongScriptPasses` | app/src/main/jni/breadwallet-core/BRTransaction.c:389-398 | any buffer whose only input has a script length of 2^64 - 1 makes the code read outside it |
| `Transactions.WrappedIsAccepted` | app/src/main/jni/breadwallet-core/BRTransaction.c:389-426 | any buffer whose only input has a script length of 2^64 - 55 is accepted, without outputs and with the version as lock time, though it ends before that input does |
| `Transactions.SignedSize` | app/src/main/jni/breadwallet-core/BRTransaction.c:492-514 | of a signed transaction the size is exactly the number of its bytes |
| `Transactions.PutInput` | app/src/main/jni/breadwallet-core/BRTransaction.c:112-132 | one input, also when it does not fit |
| `Transactions.PutOutputs` | app/src/main/jni/breadwallet-core/BRTransaction.c:168-183 | all outputs, also when they do not fit |
| `Transactions.Serialize` | app/src/main/jni/breadwallet-core/BRTransaction.c:255-322 | the reported length always; when the transaction fits, its bytes in front and the rest of the buffer as it was |
| `Transactions.Parse` | app/src/main/jni/breadwallet-core/BRTransaction.c:366-429 | the loops over a moving 64-bit offset, for buffers below 2^63 bytes: cut-off fields read as 0, entries not read are zero, and a read outside the buffer is told |
| `Transactions.Size` | app/src/main/jni/breadwallet-core/BRTransaction.c:492-514 | the known or estimated size |
| `Transactions.ReadVarIntAt` | app/src/main/jni/breadwallet-core/BRAddress.c:39-104 | a variable-length integer is read back with its length |
| `Transactions.ReadVarIntSize` | app/src/main/jni/breadwallet-core/BRAddress.c:39-67 | what is read never needs more bytes than were taken |

## Left out

- HashSets.HashSet.Add: states nothing for a new item in a full table of the last size, whose successor is never allocated.
- HashSets.HashSet.constructor: only for capacities that some size but the last one reaches, because the code allocates no table for others.
- HashSets.HashSet.Minus: for different sets; a set minus itself is `HashSets.HashSet.MinusItself`, which does not say which items stay.
- Difficulty.IsValid: only for targets whose size byte is at most 31, because the code writes the target into a 32-byte buffer at that offset.
- MerkleBlocks.Walker.RootR: only for fewer than 2^31 transactions, because the shifting loop does not end for more.
- MerkleBlocks.Walker.TxHashesR: the same.
- MerkleBlocks.BlockSound: says nothing where the walk ends with SIZE_MAX; the returned hashes can then happen to be leaves.
- Bech32.Encode: requires that an accepted text fits 90 characters, because the length check of the code does not ensure it.
- Bip39.Encode: only for at most 968 bytes of data, the most whose 32-bit windows stay inside the buffer.
- Transactions.Serialize: the buffer's contents are not stated when the transaction does not fit; offsets do not wrap at 2^64.
- Transactions.Parse: allocating the inputs and outputs that a buffer announces always succeeds; the transaction hash that is computed for signed transactions and the addresses derived from scripts are not part of the result.
- Wallets.Wallet.constructor: an empty wallet only; loading saved transactions is registering each of them.
- Wallets.Wallet.RegisterTransaction: the addresses generated afterwards are parameters; sums do not wrap at 2^64.
- Wallets.Wallet.CreateTxForOutputs: where the transaction gets too large the code starts over with less; the model stops there and says so. Generating the change address is not modelled, its script is a parameter.
- PeerManagers.PeerManager.RelayedBlock: one atomic step; the tail call for the waiting orphan is another step of a run. Whether a block's target is right is a parameter. The inputs for which one of its walks follows a null pointer are excluded, and no others. Heights stay below 2^31 - 1. Rescans, which move the last block back, are not modelled.
- PeerManagers.PeerManager.Reorganise: only where the code does not follow a null pointer.
- PeerManagers.PeerManager.Refresh: the same; the replaced block object is not looked up among the orphans, which are told apart by address there.
- PeerManagers.PeerManager.TakeOrphan: choosing blocks to save is not modelled.
- Aead.Decrypt: the timing of the comparison is not modelled.
- Removing transactions with everything that depends on them (`BRWalletRemoveTransaction`), address generation, signing.
- Signature hashes of `_BRTransactionData` for single inputs and the BIP 143 form.
- Bloom filters, their false-positive rate, and amounts in floating point.
- Sockets, threads, locks, timeouts and peer messages; the C memory cleaning.
- secp256k1, BIP 32, SHA, RIPEMD, scrypt and ChaCha20 themselves.
- The payment protocol, JNI and the Android application.
