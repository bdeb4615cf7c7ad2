# Verification of the transfer builder, node health, entity IDs and frame codec

Dafny models of four parts of the SDK, with proofs of what they promise. `dafny verify dfyconfig.toml`
checks the project.

- **Transfers** (`Transfers`, `TransferTotals`, `TransferConfluence`, `TransferHistory`,
  `TransferMemory`, `Grouping`, `GroupDistinctness`, `TransferTransaction`, `DataConfluence`, `DataOrder`):
  the lists behind `addTokenTransfer`, `addTokenTransferWithDecimals`, `addU2UTransfer` and
  `addNftTransfer`, and the sort and two-cursor merge of `_makeTransactionData`. The object and its loops are methods of a class; each is tied to a
  function on values, and the lemmas speak of those functions over every run of calls.
- **Node health** (`Backoffs`, `NetworkState`, `NetworkSetup`, `NetworkClosing`,
  `NetworkReplacement`, `NetworkOrder`, `NetworkRuns`, `NetworkInstances`, `NodeSelection`, `SelectionProgress`,
  `SelectionEnds`, `SelectionInstances`, `ManagedNetworks`, `ExecutionRuns`, `ExecutionSafety`,
  `ExecutionOutcomes`, `ExecutionBackoffs`, `Executables`, `Shuffles`): the healthy list as
  a cache of readmit times, its replacement by `_setNetwork`, node selection, and the retry loop of
  `execute`. Clock readings, random draws and RPC outcomes are parameters; runs are sequences of events
  in time order, of any length.
- **Entity IDs** (`Checksums`, `ChecksumDetection`, `KnownChecksums`, `EntityIds`, `AccountTexts`,
  `SolidityAddresses`, `Decimals`, `Hex`, `BigEndians`): the address checksum of HIP-15
  ("Specification"), the text forms and the Solidity form.
- **Frames** (`FrameCodec`, `FrameTrailers`, `FrameErrors`): the length-prefixed frames of the gRPC-Web protocol.

`Identifiers`, `Ordering`, `Longs`, `Sums`, `Sequences` and `Results` support them. `Long` values are
64-bit with wrap-around written out. Times and backoffs are `real`.

## Findings

Where a property one would expect does not hold of the code, the model keeps the code's behaviour and
states exactly when the property holds.

- One group per token is not guaranteed: NFTs are sorted without regard to their token
  (`GroupDistinctness.DistinctIffNoRevisit`, with `TransferTransactions.TokenSplit` as the instance).
- The order of add calls matters to the sorted lists exactly when calls for one entry disagree on approval,
  where the first call decides, or calls for one NFT disagree, or NFTs of two tokens tie in the sort
  (`DataConfluence.ArrangementIrrelevantIff`). It matters to the emitted data in the first two cases, and in
  the third exactly when the merge groups some sorted arrangement of the NFTs differently
  (`DataOrder.DataIrrelevantIff`; after the tie of `DataOrder.TieWithoutEffect` it never does). Sorting is
  only defined on accounts that do not mix kinds in one shard and realm (`Identifiers.AccountsConsistent`).
- A decimals mismatch throws after a partial update. The call is credited when its entry comes before
  the mismatching one, and the entries of the token may then expect different decimals
  (`TransferHistory.ThrowUnchangedIff`, `TransferHistory.AgreementKeptIff`, `TransferHistory.StainedRun`).
- The unhealthy counter is not reset by a later `_setNetwork`; `NetworkReplacement.CountExactIff` says
  when it is right afterwards, and `NetworkInstances.DriftingRun` is a run after which it is wrong.
- Closing a node whose key is no longer indexed, which happens to nodes that were not ready at the last
  replacement, is a TypeError, and `_setNetwork` then stops halfway. `NetworkClosing.ClosingThrowsIff`
  says when, `NetworkReplacement.ThrowLeaves` what is left, and `NetworkInstances.StrandingRun` is a run
  after which the only healthy node is a closed one. All run results admit such replacements.
- The comment above the loop of `_getNumberOfMostHealthyNodes` (src/client/ManagedNetwork.js:224-235)
  says that it cannot run forever; taking the counter back on a refused node makes it do so
  (`SelectionInstances.HangingRun`). `SelectionEnds.CanAlwaysEndIff` says for every count when it can always
  end; `SelectionInstances.CrossedRun` is a network that can always supply two nodes, but not three.
- The comment in the retry loop (src/Executable.js:612-614) speaks of waiting for a node to be healthy;
  the code goes on at once (`ExecutionBackoffs.LockedBurnsAttempts`, `ExecutionBackoffs.LockedSilentIff`).
- `execute` fills in the minimum backoff from the client without comparing it with the request's maximum,
  which the setters do.
- The status that is retried as a timeout has code 17 (src/grpc/GrpcStatus.js), which is not a code of
  the gRPC protocol; its DEADLINE_EXCEEDED, 4, is not retried.
- The earliest readmit time is clamped by a period, not by a time, so once a pass has fired the next
  ones always fire.
- Raising a node's maximum backoff raises its current backoff to it; lowering it leaves the current
  backoff above the cap.
- An account text of 40 characters is read as an EVM address, and the checksum of an account text is
  dropped. The checksum of an address with any character but digits and dots is five NUL characters.
- The comment above the frame codec (src/channel/Channel.js:247-248) gives the trailer flag as 1; the
  code tests the highest bit.
- The comment in `delayForAttempt` gives waits of 0.1 s, 0.2 s and so on; with the formula below it the
  wait after attempt k is the minimum backoff times 2^k, floored and capped.

## Model

| member | source | states |
|---|---|---|
| Transfers.RunUnique | src/account/TransferTransaction.js:234-267 | over every run of add calls, whether or not some throw, the lists hold one entry per (token, account), per account and per (token, serial) |
| TransferTransactions.TransferTransaction.AddTokenTransfer | src/account/TransferTransaction.js:234-267 | a frozen transaction refuses the call and changes nothing; otherwise the amount is added with 64-bit wrap-around to the first entry of the pair, clearing its decimals, or a new entry is appended |
| TransferTransactions.TransferTransaction.AddTokenTransferWithDecimals | src/account/TransferTransaction.js:296-343 | every entry of the token passed by the scan takes the decimals, the pair's entry takes the amount or an entry without approval is appended, and the call throws at the first entry that expects other decimals, leaving the entries passed so far changed |
| TransferTransactions.TransferTransaction.AddU2UTransfer | src/account/TransferTransaction.js:378-405 | the amount is added to the account's entry or appended as a new one; frozen refuses |
| TransferTransactions.TransferTransaction.AddNftTransfer | src/account/TransferTransaction.js:482-582 | an entry of the same token and serial takes the new sender and receiver and keeps its approval; otherwise a new entry is appended; frozen refuses |
| TransferHistory.NftRemembered | src/account/TransferTransaction.js:560-579 | over every run the entry of an NFT exists exactly when some call named it, with the parties of the last such call and the approval of the first |
| TransferMemory.TokenRemembered | src/account/TransferTransaction.js:234-343 | over every run, whether or not calls throw, a pair has an entry exactly when a call naming it appended or updated one; the entry's approval is that of the first such call, a call with decimals approving nothing, and its decimals are the ones last set |
| TransferMemory.AmountRemembered | src/account/TransferTransaction.js:378-405 | over every run an account has an amount exactly when a call named it, with the approval of the first such call |
| TransferMemory.ThrowsIff | src/account/TransferTransaction.js:309-318 | a call throws exactly when it gives decimals and some entry of its token expects others |
| TransferHistory.AgreementKeptIff | src/account/TransferTransaction.js:309-326 | a call keeps the entries of each token agreeing on the decimals they expect, exactly when it does not throw after passing an entry of its token |
| TransferHistory.ThrowUnchangedIff | src/account/TransferTransaction.js:309-326 | where the entries of each token agree on decimals, a call that throws leaves the lists as they were exactly when it has passed no entry of its token |
| TransferHistory.RunAgrees | src/account/TransferTransaction.js:296-343 | over every run without such a throw, the entries of each token agree on the decimals they expect |
| TransferHistory.StainedRun | src/account/TransferTransaction.js:309-318 | a four-call run whose last call throws halfway and leaves two entries of one token expecting different decimals |
| TransferTotals.TokensConserved | src/account/TransferTransaction.js:245-264 | for every run and every selection of (token, account) pairs, the entries total the credited requests modulo 2^64, and are equal to them when no addition overflows |
| TransferTotals.U2UsConserved | src/account/TransferTransaction.js:387-402 | the same conservation for the account amounts, for every selection of accounts |
| TransferTotals.RequestsWithoutThrow | src/account/TransferTransaction.js:309-340 | in a run where no call throws, the requests are the plain sum of the values of the calls; a throwing call is credited exactly when its entry comes before the one it throws at |
| TransferTotals.TokenAmount | src/account/TransferTransaction.js:245-264 | the amount kept for a pair is the 64-bit wrap of everything asked for it |
| TransferTotals.U2UAmount | src/account/TransferTransaction.js:387-402 | the amount kept for an account is the 64-bit wrap of everything asked for it |
| TransferConfluence.EmittedInOrder | src/account/TransferTransaction.js:726-734 | over orderable accounts the emitted token transfers strictly increase by the shard, realm and number of the token and then by the account, and the account amounts strictly increase by account, both in the sense of plain numeric inequalities |
| TransferConfluence.CompareTransfersSign | src/account/TransferTransaction.js:726-734 | the comparison of token transfers is negative exactly on a lower token or, in one token, a lower account |
| TransferConfluence.Reordered | src/account/TransferTransaction.js:234-267 | over orderable accounts, reordering calls without decimals whose approval flags agree leaves both emitted lists unchanged |
| TransferConfluence.PromotedFlag | src/account/TransferTransaction.js:245-264 | the call made first for an entry decides its approval flag |
| TransferConfluence.OrderIrrelevantIffApprovalsAgree | src/account/TransferTransaction.js:726-734 | confluence: for calls without decimals over orderable accounts, every order emits the same fungible lists exactly when the calls for one entry agree on approval |
| DataConfluence.NftOrderIrrelevantIff | src/account/TransferTransaction.js:736-752 | over orderable accounts every order of the calls emits the same NFT list exactly when calls for one NFT agree on parties and approval and no two tokens tie in the sort |
| DataConfluence.ArrangementIrrelevantIff | src/account/TransferTransaction.js:722-900 | confluence of the sorted lists: for calls without decimals over orderable accounts, every order leaves the three of them the same, and so emits the same data, exactly when the calls agree on approvals and on NFTs and no two tokens tie in the sort |
| DataOrder.DataIrrelevantIff | src/account/TransferTransaction.js:722-900 | confluence of the data: for such calls every order emits the same data exactly when the calls agree on approvals and on NFTs and the merge gives the same groups for every sorted arrangement of the NFT entries |
| DataOrder.TieWithoutEffect | src/account/TransferTransaction.js:722-900 | for any two tokens in order, four add calls of which every order emits the same data although NFTs of the two tokens tie in the sort |
| Grouping.PlaceContents | src/account/TransferTransaction.js:754-870 | every iteration of the merge keeps: the groups hold exactly what both cursors have read, in the order it was read |
| Grouping.PlaceShaped | src/account/TransferTransaction.js:760-868 | every iteration keeps: each group holds its own token's transfers only, groups with token transfers strictly increase, and every group is behind the fungible cursor |
| Grouping.GroupsSound | src/account/TransferTransaction.js:754-870 | the groups' token transfers concatenate to the sorted list, each token's NFTs appear once and in sorted order in groups of that token, all token transfers of a token share one group, and a group's decimals are those of its first token transfer or null without one |
| Grouping.GroupsComplete | src/account/TransferTransaction.js:754-870 | for any two lists, sorted or not, the groups hold exactly the given token transfers, each token's NFTs are all there in list order, and every transfer is in a group of its own token |
| GroupDistinctness.DistinctIffNoRevisit | src/account/TransferTransaction.js:766-868 | every token gets one group exactly when no NFT of the sorted list comes back to a token (a condition on the two sorted lists) |
| GroupDistinctness.DistinctWhenInOrder | src/account/TransferTransaction.js:736-752 | one group per token when the NFTs are in token order or there are no token transfers |
| GroupDistinctness.IncreasingWhenInOrder | src/account/TransferTransaction.js:754-868 | with NFTs in token order the groups strictly increase by the shard, realm and number of their token |
| GroupDistinctness.RepeatedGroup | src/account/TransferTransaction.js:736-752 | for any three tokens in order, sorted lists for which the merge opens two groups for one token |
| TransferTransactions.TransferTransaction.MergeGroups | src/account/TransferTransaction.js:754-870 | the two-cursor loop computes the groups the lemmas above speak of |
| TransferTransactions.TransferTransaction.PlaceFromBoth | src/account/TransferTransaction.js:760-816 | one iteration while both lists last: the last group takes the transfer, then the NFT, and otherwise the smaller token opens a group, or both do together |
| TransferTransactions.TransferTransaction.PlaceLastTransfer | src/account/TransferTransaction.js:817-842 | one iteration with token transfers only: the last group of the token takes the transfer, or a group is opened |
| TransferTransactions.TransferTransaction.PlaceLastNft | src/account/TransferTransaction.js:843-869 | one iteration with NFT transfers only |
| TransferTransactions.TransferTransaction.MakeTransactionData | src/account/TransferTransaction.js:722-900 | sorts the three lists in place and emits the groups and account amounts of the sorted lists |
| TransferTransactions.NftsArranged | src/account/TransferTransaction.js:736-752 | the NFT list increases by sender, then receiver, then serial, stated with numeric inequalities, and NFTs that agree on all three keep their call order |
| TransferTransactions.DataAgain | src/account/TransferTransaction.js:722-900 | making the data again finds the lists in order and emits the same data |
| TransferTransactions.TokenSplit | src/account/TransferTransaction.js:722-900 | for any three tokens in order, four add calls whose emitted data has two groups for one token |
| TransferTransactions.MergeConserved | src/account/TransferTransaction.js:722-900 | end to end over every run, every account and every order the sorts may leave: the groups carry on any selection of pairs what the calls asked for modulo 2^64, and just that when nothing overflows; no pair is emitted twice; each token's NFTs are all emitted in its groups |
| TransferTransactions.DataConserved | src/account/TransferTransaction.js:722-900 | the same of the emitted data, with the account amounts |
| TransferTransactions.DataGrouped | src/account/TransferTransaction.js:722-900 | over orderable accounts the emitted groups are those of the sorted lists: order kept, one group with token transfers a token, decimals of the first transfer |
| Ordering.SortDetermined | src/account/TransferTransaction.js:726-752 | the sort is stable and any sorted arrangement that keeps ties in order is its result |
| Ordering.SortPermutation | src/account/TransferTransaction.js:726-734 | where no two different elements tie, sorting forgets the order it was given |
| Ordering.CompareTextLexical | src/account/AccountId.js:354-372 | comparing texts as the source does is negative exactly when, at the first place where they differ, the first has the lower code unit or has ended |
| Identifiers.CompareTokensSign | src/EntityIdHelper.js:133-145 | the comparison is negative exactly when the shard is smaller, or in one shard the realm, or in one realm the number; 0 on equal IDs only; and antisymmetric |
| Identifiers.CompareAccountsSign | src/account/AccountId.js:333-376 | on accounts it can order, the comparison is negative exactly when shard, realm or then the holder is lower: numbers by value, alias keys by their text, EVM addresses byte by byte |
| Identifiers.CompareAccountsZero | src/account/AccountId.js:333-376 | the account comparison answers 0 on equal accounts only, whatever their kinds |
| Identifiers.CompareAccountsAntisymmetric | src/account/AccountId.js:333-376 | swapping the arguments flips the sign exactly when the two accounts are not of two kinds in one shard and realm |
| Identifiers.AccountsConsistent | src/account/AccountId.js:333-376 | the comparison is consistent on a set of accounts, as sorting needs, exactly when no shard and realm mixes kinds |
| Shuffles.Shuffle | src/util.js:407-423 | the in-place loop leaves the array as the draws decide |
| Shuffles.ShuffledPermutes | src/util.js:407-423 | the result is a permutation of the elements |
| Shuffles.ShuffleBijective | src/util.js:407-423 | on distinct elements every permutation comes from exactly one draw sequence, and draws give permutations only |
| FrameCodec.DecodeUnaryResponse | src/channel/Channel.js:276-337 | the loop over the window decides the declarative decoder, from the bytes of the window only; a window past the buffer is an error |
| FrameCodec.ReadFrame | src/channel/Channel.js:291-302 | one header and payload read from the buffer, with the error past the boundary |
| FrameCodec.SplitUnique | src/channel/Channel.js:290-326 | a window splits into length-prefixed frames in at most one way |
| FrameCodec.DecodeCharacterised | src/channel/Channel.js:276-337 | the decoder returns r exactly when the window splits into frames with one data frame, of payload r, and grpc-status trailers of which the last is 0 |
| FrameErrors.DecodeErrors | src/channel/Channel.js:276-337 | any window of frames: the first frame that is a second data frame or a trailer of another name decides the error; without one, a last status other than 0 is reported, and then the lack of data |
| FrameErrors.LastStatusIs | src/channel/Channel.js:278-334 | the last status is the one of the last trailer, and the initial 0 without trailers |
| FrameErrors.Truncated | src/channel/Channel.js:290-302 | when something that is no whole frame follows the frames of a window, the error is one past the buffer below 5 bytes and one past the boundary from 5 on |
| FrameTrailers.StatusRead | src/channel/Channel.js:312-321 | a trailer with the text `grpc-status:`, white space and a decimal number, signed or not, is read to that number, whatever follows, unless it holds a colon, goes on with a digit or makes the number hexadecimal |
| FrameTrailers.StatusName | src/channel/Channel.js:312-318 | the name that is looked for is the text `grpc-status`, ended by a colon |
| FrameTrailers.NameDecides | src/channel/Channel.js:312-326 | a trailer carries a status exactly when its text before the first colon is `grpc-status` |
| FrameTrailers.NoNumberRead | src/channel/Channel.js:319 | a status text without a digit after white space and a sign is no number |
| FrameTrailers.OtherNameRejected | src/channel/Channel.js:311-326 | a response whose trailer has any other name is an error, whatever follows the name |
| FrameTrailers.StatusDecides | src/channel/Channel.js:311-334 | a response of one data frame and such a trailer is decoded to the data when the number is 0, and otherwise to the error that reports it |
| FrameCodec.PayloadBounded | src/channel/Channel.js:293-302 | a decoded payload is shorter than 2^32 bytes |
| FrameCodec.EncodeRequest | src/channel/Channel.js:254-268 | the frame is a zero byte, four bytes that are the length modulo 2^32 in base 256, and the data |
| FrameCodec.RequestRoundTrip | src/channel/Channel.js:254-337 | decoding an encoded request gives the data back exactly when it is shorter than 2^32 bytes |
| Checksums.ComputeChecksum | src/EntityIdHelper.js:316-357 | the loops compute the HIP-15 checksum, with every integer intermediate below 2^53 and the quotients rounded as binary64 rounds them, and five NUL characters for an address with any other character |
| Checksums.SumDigits | src/EntityIdHelper.js:337-344 | the digit loop computes the weighted sum modulo 26^3 and both parity sums modulo 11 |
| Checksums.HashLedger | src/EntityIdHelper.js:330-347 | the loop over the ledger ID and six zero bytes computes the ledger hash modulo 26^5; `ChecksumDetection.LedgerHashClosedForm` is its value |
| Checksums.RenderByDivision | src/EntityIdHelper.js:351-354 | the division loop that does not floor, each quotient and each sum rounded with a relative error of at most 2^-53, renders exactly the five base-26 digits |
| ChecksumDetection.SameChecksumIff | src/EntityIdHelper.js:333-354 | for one ledger two addresses get the same checksum exactly when length modulo 5, both parity sums modulo 11 and the weighted sum modulo 26^3 agree |
| ChecksumDetection.SubstitutionDetected | src/EntityIdHelper.js:333-354 | replacing one character of an address changes its checksum |
| ChecksumDetection.SwapDetected | src/EntityIdHelper.js:333-354 | swapping two different adjacent characters changes the checksum |
| ChecksumDetection.LengthChangeDetected | src/EntityIdHelper.js:333-354 | addresses whose lengths differ by one to four get different checksums |
| ChecksumDetection.LedgersIff | src/EntityIdHelper.js:345-354 | for one address two ledgers give the same checksum exactly when their hashes agree |
| ChecksumDetection.LedgerByteDetected | src/EntityIdHelper.js:345-354 | ledger IDs that differ in one byte give different checksums for every address |
| ChecksumDetection.LedgerHashClosedForm | src/EntityIdHelper.js:330-347 | the ledger hash is the sum of ledger[i] times 31^(|ledger| + 5 - i), modulo 26^5, for every ledger ID |
| ChecksumDetection.WeightedClosedForm | src/EntityIdHelper.js:337-340 | the weighted sum of digits d is the sum of d[i] times 31^(|d| - 1 - i), for any modulus |
| KnownChecksums.Networks | test/unit/ChecksumValidation.js:8-50 | the checksums of 0.0.123 on the main, test and preview networks are vfmkw, esxsf and ogizo |
| EntityIds.MatchTextIff | src/EntityIdHelper.js:70 | a text matches the entity ID pattern exactly when it is the text of a proper match, and of one only |
| EntityIds.ShortRead | src/EntityIdHelper.js:174-180 | digits alone are split into them as the number, with shard and realm 0, and a checksum after a hyphen |
| EntityIds.FullRead | src/EntityIdHelper.js:181-188 | three parts between dots are split into shard, realm and number, and a checksum after a hyphen |
| EntityIds.NumberRead | src/EntityIdHelper.js:174-212 | a printed number alone is read as that number in shard 0 and realm 0 |
| EntityIds.ValidateIff | src/EntityIdHelper.js:368-387 | a checksum is accepted exactly when it is that of the ID on the ledger, or no ledger is known; a refusal names both |
| EntityIds.PrintedIdRoundTrip | src/EntityIdHelper.js:195-212 | an ID printed with its checksum is read back to the same parts and its checksum is accepted, for all non-negative 63-bit parts and every ledger |
| EntityIds.SlipRejected | src/EntityIdHelper.js:368-387 | a one-character slip from one printed ID to another is rejected by the checksum |
| AccountTexts.NumericRoundTrip | src/account/AccountId.js:68-97 | reading a printed numeric account gives it back exactly when its text is not 40 characters long |
| AccountTexts.NumberAlone | src/account/AccountId.js:68-97 | a printed number alone is read as that account of shard 0 and realm 0 |
| AccountTexts.AddressAlone | src/account/AccountId.js:75-76 | 20 bytes in hex, with or without 0x, are read as that EVM address in shard 0 and realm 0 |
| AccountTexts.PartsRead | src/account/AccountId.js:87-93 | three parts whose last one is hex: 40 characters are an EVM address, 20 or more a key, and fewer a number, which is refused from 2^63 on |
| AccountTexts.FortyCharacters | src/account/AccountId.js:73-81 | a numeric account with a 40-character text that is read back as something else |
| AccountTexts.EvmRoundTrip | src/account/AccountId.js:267-277 | reading a printed EVM account gives it back exactly when its address has 20 bytes |
| AccountTexts.ChecksumIgnored | src/account/AccountId.js:68-97 | the checksum in an account text plays no part in reading it |
| SolidityAddresses.ToSolidityAddress | src/EntityIdHelper.js:249-259 | the buffer writes produce the three big-endian 32-bit fields and the zeros between them |
| SolidityAddresses.AddressRoundTrip | src/EntityIdHelper.js:224-259 | decoding an encoded ID gives it back exactly when all three parts are below 2^32 |
| SolidityAddresses.DecodeEncoded | src/EntityIdHelper.js:224-232 | a hex text, with or without 0x, is an address exactly when it holds 20 bytes |
| SolidityAddresses.BytesRoundTrip | src/EntityIdHelper.js:224-259 | encoding a decoded address gives the bytes back exactly when the high halves of realm and num are zero |
| SolidityAddresses.AddressFields | src/EntityIdHelper.js:249-259 | bytes 0 to 3, 4 to 11 and 12 to 19 of an address are, in base 256, the shard, realm and number as they are stored in 32 bits |
| SolidityAddresses.FieldsRead | src/EntityIdHelper.js:224-240 | the same bytes are read as the three parts, as signed 64-bit integers |
| SolidityAddresses.StoredModulo | src/EntityIdHelper.js:249-259 | a part that a double holds exactly is stored modulo 2^32 |
| SolidityAddresses.RoundNearest | src/EntityIdHelper.js:249-259 | a part is converted to a nearest multiple of the unit in its last of 53 places, and to the even one of two |
| Decimals.ValueFirst | src/EntityIdHelper.js:206-211 | the first digit of a number counts as many tens as there are digits after it |
| Decimals.NoLeadingZero | src/EntityIdHelper.js:195-212 | a printed number begins with 0 only when it is 0 |
| Hex.DecodeEncode | src/encoding/hex.js:25-36 | decoding undoes encoding for every byte string |
| Hex.DecodeStops | src/encoding/hex.js:33-36 | decoding ends before the first pair that is not two hex digits, and before a last single character |
| Hex.EncodeNumber | src/encoding/hex.js:25-36 | the hex text of bytes, read as a number in base 16, is the number the bytes are in base 256 |
| Hex.DigitCharIs | src/encoding/hex.js:25-36 | the digits are 0 to 9 and then a to f |
| BigEndians.BigEndianNumber | src/channel/Channel.js:262 | four bytes written for a number below 2^32 are that number in base 256 |
| ManagedNetworks.ManagedNode.constructor | src/ManagedNode.js:55-76 | a new node has the given key and address, is ready now, and waits 8 seconds at least and first, and an hour at most |
| ManagedNetworks.ManagedNode.IncreaseBackoff | src/ManagedNode.js:217-223 | the backoff becomes twice what it was, or the cap when that is less, the readmit time is that far from now, and the bounds stay |
| ManagedNetworks.ManagedNode.DecreaseBackoff | src/ManagedNode.js:225-230 | the backoff becomes half of what it was, or the minimum when that is more; the readmit time and the bounds stay |
| ManagedNetworks.ManagedNode.SetMinBackoff | src/ManagedNode.js:161-168 | the minimum is set and a current backoff below it is raised to it; cap and readmit time stay |
| ManagedNetworks.ManagedNode.SetMaxBackoff | src/ManagedNode.js:181-188 | the cap is set and a current backoff below it is raised to it; minimum and readmit time stay |
| Backoffs.IncreasedClosedForm | src/ManagedNode.js:217-223 | k increases at any times give current times 2^k, capped |
| Backoffs.DecreasedClosedForm | src/ManagedNode.js:225-230 | k decreases give current over 2^k, floored at the minimum, and keep the bounds |
| Backoffs.IncreasedPower | src/ManagedNode.js:217-223 | after k increases the backoff is 2^k times the first, or the cap when that is less |
| Backoffs.DecreasedPower | src/ManagedNode.js:225-230 | after k decreases 2^k times the backoff is the first, or the backoff is the minimum and 2^k times it is no less |
| Backoffs.IncreasesThenDecreases | src/ManagedNode.js:217-230 | k increases then k decreases never end above the start, and restore it exactly when the cap was not reached or the start was the minimum |
| Backoffs.SetMaxKeepsBounds | src/ManagedNode.js:181-188 | setting the cap keeps min <= current <= max exactly when the current backoff is not above the new cap |
| Backoffs.SetMinKeepsBounds | src/ManagedNode.js:161-168 | setting the minimum keeps the bounds exactly when it is positive and not above the cap |
| ManagedNetworks.ManagedNetwork.ReadmitNodes | src/client/ManagedNetwork.js:171-210 | the nested loop with its early continue computes the readmission of the model, the clamp included |
| ManagedNetworks.ManagedNetwork.constructor | src/client/ManagedNetwork.js:60-97 | a new network has no nodes, healthy nodes, index or counted nodes; its minimum backoff is 8 seconds, its readmit periods are 8 seconds and an hour, and the first pass is due 8 seconds from now |
| ManagedNetworks.ManagedNetwork.ScanHealthy | src/client/ManagedNetwork.js:179-193 | the inner loop finds the node in the healthy list and lowers the next readmit time only while searching |
| NetworkState.ReadmitExact | src/client/ManagedNetwork.js:171-210 | readmission keeps the cache valid and the conserved count and adds nodes of the network only; a pass that fires makes the healthy nodes among them exactly the ready ones |
| NetworkOrder.ReadmitInOrder | src/client/ManagedNetwork.js:179-202 | readmission leaves the healthy nodes in place and appends the ready ones in the order of the node list |
| NetworkState.NextPass | src/client/ManagedNetwork.js:171-210 | a pass before the earliest readmit time changes nothing; one at it or later sets the time of the next within the readmit periods |
| NetworkState.NextPassLate | src/client/ManagedNetwork.js:205-208 | once the clock reads the longest period, a pass that fires sets the time of the next to that period |
| NetworkState.NextPassEarly | src/client/ManagedNetwork.js:175-208 | before that it is the readmit time of the first node outside the healthy list, when that is to come and some node is healthy, and otherwise 2^53 - 1, brought within the periods |
| ManagedNetworks.ManagedNetwork.GetNode | src/client/ManagedNetwork.js:452-480 | readmits, then answers the first node of the key, of another drawn key when it is not indexed, or a drawn healthy node, or fails |
| NetworkState.KeyedSelection | src/client/ManagedNetwork.js:452-471 | with a key the selection fails exactly when the index is empty; an indexed key gives the first of its nodes, any other key the first node of the key drawn |
| NetworkState.KeylessSelection | src/client/ManagedNetwork.js:471-479 | without a key it fails exactly when no node is healthy; a draw d gives node i of n when i <= d * n < i + 1 |
| NetworkState.SelectionExact | src/client/ManagedNetwork.js:452-480 | in a primed state, from the longest readmit period on, the keyless selection fails exactly when no node of the network or of the healthy list is ready |
| ManagedNetworks.ManagedNetwork.IncreaseNodeBackoff | src/client/ManagedNetwork.js:485-496 | the loop backs the node off, splices it out of the healthy list and counts it |
| NetworkState.IncreaseValid | src/client/ManagedNetwork.js:485-496 | the cache stays valid, the count is conserved and the node is no longer healthy |
| NetworkState.IncreaseExact | src/client/ManagedNetwork.js:485-496 | the node alone is off the healthy list, which keeps its order, and is counted if it was on it; its backoff is twice what it was or the cap when that is less, its readmit time that far from now, and no other node changes |
| NetworkState.DecreaseExact | src/client/ManagedNetwork.js:501-503 | the backoff of the node is half of what it was or the minimum when that is more, and nothing else changes |
| ManagedNetworks.ManagedNetwork.DecreaseNodeBackoff | src/client/ManagedNetwork.js:501-503 | changes the node's backoff only |
| ManagedNetworks.ManagedNetwork.CloseNode | src/client/ManagedNetwork.js:264-270 | removes the node from list and index, and is a TypeError exactly on a key the index does not hold |
| ManagedNetworks.ManagedNetwork.RemoveNodeFromNetwork | src/client/ManagedNetwork.js:275-290 | removes the first occurrence and deletes a key left without nodes |
| NetworkSetup.CloseMapped | src/client/ManagedNetwork.js:264-290 | closing keeps every index entry non-empty, duplicate-free, correctly keyed and inside the node list, and succeeds exactly when the node's key is indexed |
| NetworkSetup.CloseUnwantedKeeps | src/client/Network.js:182-198 | closing by decreasing index removes exactly the unwanted nodes that are reached, which are all of them when it does not throw |
| ManagedNetworks.ManagedNetwork.SetNetwork | src/client/ManagedNetwork.js:296-359 | the whole replacement on objects: close, keep, create, shuffle, rebuild; and the partly closed state when closing throws |
| ManagedNetworks.ManagedNetwork.CreateNode | src/client/Network.js:162-175 | a created node has the entry's key and address, is ready, and has the network's minimum backoff |
| NetworkReplacement.SetNetworkValid | src/client/ManagedNetwork.js:296-359 | after a replacement that succeeds everything is valid, the healthy nodes are nodes of the network, and they are exactly the ready ones |
| NetworkReplacement.SetNetworkMatches | src/client/ManagedNetwork.js:309-330 | after a replacement that succeeds there is one node for each entry, at its address, with its key, and no other node; distinct addresses of the nodes before are what NetworkRuns.RunEndpoints provides |
| NetworkRuns.RunEndpoints | src/client/ManagedNetwork.js:309-330 | over every run whose replacements give each address once, the nodes have distinct addresses, replacements that throw included |
| NetworkRuns.RunMatches | src/client/ManagedNetwork.js:296-359 | in every such run, from a replacement that succeeds to the next replacement there is one node for each entry and no other node |
| NetworkReplacement.SetNetworkIndex | src/client/ManagedNetwork.js:335-350 | after a replacement each key has exactly its healthy nodes, in shuffled order, and absent keys have none |
| NetworkOrder.SetNetworkInOrder | src/client/ManagedNetwork.js:332-355 | a replacement lists the healthy nodes in the order of the node list, and the nodes of each key in the order of the healthy ones |
| NetworkOrder.EveryArrangement | src/client/ManagedNetwork.js:329-330 | every order of the nodes that a replacement ends with is left by some draws of the shuffle |
| NetworkOrder.CompletedRecord | src/client/ManagedNetwork.js:309-327 | a node of the completed network is one of before with its key, address, backoffs and readmit time as they were, or a new one for an entry: ready, with the minimum backoff of the network and the larger of it and 8 seconds to wait first |
| NetworkReplacement.FirstNetworkCount | src/client/ManagedNetwork.js:296-359 | a first network makes every node healthy and the unhealthy counter exact |
| NetworkReplacement.CountExactIff | src/client/ManagedNetwork.js:296-359 | a replacement that succeeds leaves the unhealthy counter exact exactly when it was the number of wanted nodes whose readmit time is still to come |
| NetworkReplacement.CounterDrifts | src/client/ManagedNetwork.js:296-359 | after a healthy node is backed off, a replacement made when all nodes are ready again leaves the counter wrong |
| NetworkInstances.DriftingRun | src/client/ManagedNetwork.js:296-359 | a run of three events from a new network object after which both nodes are healthy and the counter is 1 |
| NetworkClosing.ClosingThrowsIff | src/client/ManagedNetwork.js:264-290 | closing the unwanted nodes throws exactly when one of them has a key that is not indexed, or whose indexed nodes are all unwanted ones after it in the node list; the last such node throws |
| NetworkReplacement.ReplacementThrowsIff | src/client/ManagedNetwork.js:296-312 | the same for the whole replacement: a condition on the state and the entries before the call |
| NetworkReplacement.ThrowLeaves | src/client/ManagedNetwork.js:264-312 | a replacement that throws has removed the unwanted nodes after the one that throws from node list and index, and changed neither the healthy list, nor the counter, nor any backoff |
| NetworkReplacement.InsideIffNotStranded | src/client/ManagedNetwork.js:296-359 | after any replacement the healthy nodes are nodes of the network, except exactly when it throws after closing a healthy one |
| NetworkInstances.StrandingRun | src/client/ManagedNetwork.js:264-312 | a run of four events from a new network object after which a closed node is the only healthy one |
| NetworkRuns.CacheSound | src/client/ManagedNetwork.js:171-210 | over every run of selections, backoffs and replacements in time order, replacements that throw included, the healthy list has no duplicates and ready nodes only |
| NetworkRuns.AlwaysInsideIff | src/client/ManagedNetwork.js:171-359 | over every run the healthy nodes are nodes of the network throughout exactly when no replacement throws after closing a healthy node |
| NetworkRuns.CountKept | src/client/ManagedNetwork.js:485-496 | between two replacements the unhealthy counter is exact at the end of a run exactly when it was at the start |
| NetworkRuns.RunPrimed | src/client/ManagedNetwork.js:205-208 | once a readmission pass has fired, the clamp keeps the state primed for the rest of the run, replacements that throw included |
| NetworkRuns.NeverGivesUpEarly | src/client/ManagedNetwork.js:452-480 | over every run in which a pass has fired, the keyless selection from the longest readmit period on fails exactly when the readmit time of every node, in the network or still in the healthy list, is to come |
| ManagedNetworks.ManagedNetwork.MostHealthyNodes | src/client/ManagedNetwork.js:216-259 | the selection loop with its key and host sets and the step that takes the counter back |
| NodeSelection.SelectionSound | src/client/ManagedNetwork.js:216-259 | a selection goes on from the nodes already taken, never repeats a node and takes healthy ones only; at exit it has count minus the unhealthy counter nodes, and at least one, or every healthy node |
| NodeSelection.SelectionBounded | src/client/ManagedNetwork.js:236-256 | from a selection that is not over it, the loop never takes more than count minus the unhealthy counter nodes, when that is positive; when it is not, the loop only ends with every healthy node |
| NodeSelection.SelectionNew | src/client/ManagedNetwork.js:244-252 | every node taken brings a key or a host that none of those taken before it has |
| NodeSelection.GrowsIff | src/client/ManagedNetwork.js:244-255 | some draw enlarges the selection exactly when some healthy node has a new key or a new host |
| NodeSelection.DistinctKeysGrow | src/client/ManagedNetwork.js:224-256 | with pairwise distinct keys an unfinished selection can always grow |
| NodeSelection.StuckForever | src/client/ManagedNetwork.js:224-256 | a selection that cannot grow, with nothing to readmit, never ends whatever is drawn |
| NodeSelection.ThreeNodesNeverEnd | src/client/ManagedNetwork.js:224-256 | three healthy nodes with shared keys and hosts for which the loop never ends once the first two are drawn |
| SelectionProgress.AlwaysGrowsIff | src/client/ManagedNetwork.js:244-255 | every selection that accepted draws can build grows until all nodes are taken, exactly when no node shares its key with another node and its host with another |
| SelectionEnds.CanAlwaysEndIff | src/client/ManagedNetwork.js:216-259 | for every count: the loop can still end, whatever it has drawn so far, exactly when no node is healthy or no selection blocks it, that is, admits no further node, is not all nodes, and stays short of the number at which the loop stops once all nodes are back, or is drawn at times at which that number is behind it |
| SelectionEnds.CanAlwaysEndIffUncovered | src/client/ManagedNetwork.js:236-256 | with nothing left to readmit, or more nodes asked for than the unhealthy counter says, the loop can always still end exactly when no selection of fewer nodes than all, and than that number when it is positive, holds every key and every host |
| SelectionEnds.UntangledCanEnd | src/client/ManagedNetwork.js:216-259 | when no node, healthy or to be readmitted, shares its key with another and its host with another, the loop can always still end, whatever the count |
| SelectionEnds.BlockedIffTangled | src/client/Network.js:301-311 | asked for as many nodes as there are, some selection blocks the loop exactly when some node shares its key with another and its host with another |
| SelectionInstances.HangingRun | src/client/ManagedNetwork.js:224-256 | a run from a new network object to three healthy nodes of which a request for three never ends once the first two are drawn |
| SelectionInstances.CrossedRun | src/client/ManagedNetwork.js:224-256 | a run from a new network object to four healthy nodes of which a request for two can always end and a request for three cannot |
| Executables.Executable.constructor | src/Executable.js:58-89 | ten attempts, a maximum backoff of 8000 ms, no minimum and no timeout |
| Executables.Executable.SetMinBackoff | src/Executable.js:233-243 | refused on null and above the maximum, with no change; otherwise set, and not above the maximum |
| Executables.Executable.SetMaxBackoff | src/Executable.js:260-270 | refused on null and below the minimum, with no change; otherwise set, and not below the minimum |
| Executables.Executable.Execute | src/Executable.js:512-742 | the request on objects runs as the run of the model; it times out exactly at the first pass whose check is its own timeout, else the call's, else the client's, after the start; it makes at most the client's number of attempts, else its own, and runs out at that number; its waits are those of attempts made; every node's backoff and readmit time are what the log makes of them; it keeps what it filled in, so that its minimum can exceed its maximum exactly when the one it took from the client does |
| Executables.Executable.TryOnce | src/Executable.js:562-625 | one pass: timeout, selection, request, and the skip of a node that is not ready |
| Executables.Executable.Send | src/Executable.js:626-733 | one exchange: a retried failure backs the node off, any other is thrown, a response lowers the backoff and decides what follows |
| ExecutionRuns.RetriedIff | src/Executable.js:456-470 | a gRPC error is retried exactly when its code is 8, 14 or 17, or it is 13 and its message holds RST_STREAM, in any case and with any separator that is neither a letter nor a digit, as a word of its own |
| ExecutionSafety.RunSafe | src/Executable.js:562-741 | every run: at most the allowed passes and one send in each; every send is answered by a backoff or a reply except a last one whose error is thrown; it returns exactly when the last reply is final; it reports the last problem; with a minimum backoff that is not negative its sleeps never get shorter nor exceed the cap |
| ExecutionOutcomes.RunEnds | src/Executable.js:562-741 | a run times out exactly at the first pass whose check finds the deadline reached, and runs out of attempts at the allowed number exactly |
| ExecutionOutcomes.RunTold | src/Executable.js:562-741 | the log of every run falls into the events of the passes used, at most one send to each, which tell what the pass supplied; a wait is that of its own attempt; the run returns, throws or fails only where the last pass asks for it |
| ExecutionOutcomes.NoNodeIff | src/Executable.js:577-597 | a pass stops for want of a node exactly when it is in time and the selection fails, before the request is built |
| ExecutionOutcomes.DelayClosedForm | src/Executable.js:785-792 | the wait after attempt k is the minimum backoff times 2^k, in whole milliseconds and at most the maximum, also for a negative minimum |
| ExecutionOutcomes.ExchangeFollows | src/Executable.js:678-704 | after one exchange a reply has halved the backoff of its node, not below the minimum, a retried failure has doubled it, not above the maximum, and set its readmit time that far off; every other node is as it was |
| ExecutionOutcomes.RunFollows | src/Executable.js:562-741 | over every run the log accounts for the backoff and the readmit time of every node, and nothing else of a node changes |
| ExecutionBackoffs.BackoffsRespected | src/Executable.js:612-690 | over every run requests go only to nodes whose readmit time has passed, and a node backed off is not contacted again before its backoff has ended |
| ExecutionBackoffs.RunKeeps | src/Executable.js:562-741 | a run keeps the health cache valid, the node list, the key index and the conserved count |
| ExecutionBackoffs.KeylessPassSends | src/Executable.js:577-624 | a pass without a locked node never skips the node it selects |
| ExecutionBackoffs.LockedBurnsAttempts | src/Executable.js:612-624 | a request locked to one node that is not ready uses up all its attempts without sending or waiting |
| ExecutionBackoffs.LockedSilentIff | src/Executable.js:562-625 | a request locked to one node sends nothing exactly when every pass it uses comes after the deadline, fails to build the request, or comes before the node's readmit time |
| ExecutionBackoffs.DelaysOrderedIff | src/Executable.js:785-792 | the waits are in order for every pair of attempts exactly when the minimum backoff is not negative |

## Left out

- The channels of nodes: closing a node only takes it off the lists; that its channel is closed, also when the TypeError follows, is not recorded.
- Network transports, certificates, mirror channels, protobuf encoding, cryptography and the lazy service getters: I/O and library calls.
- `BigNumber` amounts and the parsing of amount strings: amounts are 64-bit integers of the smallest unit.
- Update in place inside an entry or a group: entries, NFT transfers and groups are values replaced in a list field, so aliasing between the lists and the emitted data is not captured.
- `Array.prototype.sort` itself: a stable sort with a consistent comparator has one result (`Ordering.SortDetermined`), and the model computes it by insertion.
- `setTokenTransferApproval`, `setNftTransferApproval` and `_fromProtobuf`: runs consist of add calls on a new transaction; setting an approval afterwards overwrites a flag and moves no amount.
- An account ID that carries a number together with an alias key or an EVM address: an account here has one of the three.
- `Long.fromString` on hex letters and `PublicKey.fromString` are not part of this model: a text that reaches them is kept as such.
- `_parseAddress`: its pattern never matches.
- The text decoder of trailers: status values are read from the bytes with ASCII white space only; `FrameCodec.DecodeCharacterised` and `FrameCodec.RequestRoundTrip` hold for every way of reading trailers.
- Checksums.RenderByDivision: binary64 itself is not modelled; its rounding is a parameter with the two properties of `Checksums.Rounds`.
- Periods and backoffs as doubles: times, periods and backoffs are exact reals.
- `close()`, `_removeDeadNodes`, `setMaxNodeAttempts`, `setTransportSecurity`, the setters of the readmit periods and of the network's backoffs, the use counts, and a node built as a clone: no bookkeeping of the healthy list depends on them while they are not called.
- The order of closing: the source collects the indices to close before it closes any; the model closes in the same descending order while it looks.
- Address parsing of nodes: an address is a host and a port.
- The order of keys in the index: the key drawn for a key that is not indexed is a parameter.
- The round robin of the locked node list: the key of each pass is a parameter, so every order is covered.
- Interleaved requests: a run of `execute` is a sequence of passes on a network that nothing else changes meanwhile.
- `_beforeExecute`, `_makeRequestAsync`, `_shouldRetry` and `_mapResponse`: their outcomes are parameters of a pass.
- SelectionEnds.CanAlwaysEndIff: with nodes left to readmit and a count of at most the unhealthy counter it supposes that the clock reads at least the longest readmit period, as milliseconds since 1970 do unless that period is set to decades; below it a pass may not fire, and when nodes come back depends on more than their readmit times.
