# CIP-113 programmable tokens: balance ledger and registry insertion

This project models the core of the off-chain service for CIP-113 programmable tokens on
Cardano. The core has two state engines and a few small selection rules.

**The balance ledger.** The event listener reads each block's transactions. For each transaction
it folds the spent and produced UTxOs that sit at a programmable-logic script address into one
net change per `address|policyId|assetName`. Units are parsed as follows:
- `lovelace` is recorded as policy `ADA` with no asset name;
- any other unit splits into a 56-character policy id and an optional asset name;
- a shorter unit is skipped.

For every touched key, the listener reads the latest stored balance and appends a row holding the
new absolute balance to the append-only `balance_log` table. The append is idempotent on
(address, policyId, assetName, txHash). The table is a class holding the stored rows in insertion
order and the next identity value. Each repository query is a function of the stored rows:
- latest by slot then id;
- latest per asset by maximum id;
- history by descending slot;
- the filters by payment script, stake key, transaction and programmable flag.

The listener's loops are methods proved equal to specification functions. Lemmas about those
functions state the properties of the log:
- each recorded row is the prior balance plus the transaction's net change;
- every touched key gets exactly one row;
- re-delivering a transaction or an event changes nothing;
- ids stay increasing and keys stay unique.

**The registry insertion.** The on-chain registry of programmable-token policies is a sorted
linked set of UTxOs, each holding a `RegistryNode` datum `(key, next, …)`. The head has the
empty key. `register` does four things:
- it rejects a policy id that some node already has as its key;
- it looks for the node whose interval `key < policyId < next` (under `String.compareTo`) contains the policy id;
- it rewrites that node's `next`;
- it creates the new node `(policyId, oldNext, transfer, thirdParty, "")`.

`thirdParty` is looked up the way the controller writes it, which loses the requested validator
(see Findings). Both datums are encoded when the transaction is composed. A field that is not hex
makes that throw, and the controller answers 500.

The model proves this is a correct sorted-list splice. Over a well-formed chain, an absent key
lies in exactly one node's interval, and the splice keeps the chain strictly increasing with
exactly one more key. The datum encoder `toPlutusData` is modelled with its head and regular forms
and a hex codec, with round-trip lemmas. The same file also holds two small rules: the payee rules
of `register` and `mint`, and the pre-balance hook that moves the fee payer's first output to the
end.

**Selection rules.**
- `ProtocolBootstrapService` loads the protocol versions into a map keyed by transaction hash, where a later duplicate wins, and picks the default version.
- It finds blueprint validators by title.
- The frontend's `substandards.ts` looks up the validator titles of a substandard.

Modules follow the source files: `JavaStrings` (with `Optional`), `Hex`, `RegistryNode`,
`IssueTokenController`, `ProtocolBootstrap`, `Substandards`, `BalanceLogEntity`,
`BalanceLogOrder`, `BalanceLogRepository`, `BalanceService` and `BalanceEventListener`.

## Model

| member | source | states |
|---|---|---|
| JavaStrings.CompareTo | src/programmable-tokens-offchain-java/src/main/java/org/cardanofoundation/cip113/controller/IssueTokenController.java:219-220 | compareTo is zero exactly for equal strings |
| JavaStrings.CompareToAntisymmetric | src/programmable-tokens-offchain-java/src/main/java/org/cardanofoundation/cip113/controller/IssueTokenController.java:219-220 | a.compareTo(b) is the negation of b.compareTo(a) |
| JavaStrings.LessTransitive | src/programmable-tokens-offchain-java/src/main/java/org/cardanofoundation/cip113/controller/IssueTokenController.java:219-220 | the registry key order is transitive |
| JavaStrings.LessAsymmetric | src/programmable-tokens-offchain-java/src/main/java/org/cardanofoundation/cip113/controller/IssueTokenController.java:219-220 | no two keys precede each other |
| JavaStrings.LessTotal | src/programmable-tokens-offchain-java/src/main/java/org/cardanofoundation/cip113/controller/IssueTokenController.java:219-220 | two distinct keys are always ordered one way |
| JavaStrings.LessIrreflexive | src/programmable-tokens-offchain-java/src/main/java/org/cardanofoundation/cip113/controller/IssueTokenController.java:219-220 | no key precedes itself, so the gap test is strict |
| JavaStrings.EmptyIsLeast | src/programmable-tokens-offchain-java/src/main/java/org/cardanofoundation/cip113/model/onchain/RegistryNode.java:18-24 | the head's empty key is below every other key |
| JavaStrings.IsBlank | src/programmable-tokens-offchain-java/src/main/java/org/cardanofoundation/cip113/controller/IssueTokenController.java:310 | the empty string is blank, and a blank string holds no printable ASCII character |
| Hex.DecodeHex | src/programmable-tokens-offchain-java/src/main/java/org/cardanofoundation/cip113/model/onchain/RegistryNode.java:21-31 | decodeHexString succeeds exactly on even-length hex text and halves its length |
| Hex.EncodeHex | src/programmable-tokens-offchain-java/src/main/java/org/cardanofoundation/cip113/controller/IssueTokenController.java:258 | encodeHexString writes two lower-case digits per byte |
| Hex.DecodeEncode | src/programmable-tokens-offchain-java/src/main/java/org/cardanofoundation/cip113/model/onchain/RegistryNode.java:21-31 | decoding what was encoded gives back the bytes |
| Hex.EncodeDecode | src/programmable-tokens-offchain-java/src/main/java/org/cardanofoundation/cip113/model/onchain/RegistryNode.java:21-31 | encoding what was decoded gives back lower-case hex text |
| Hex.DigitChar | src/programmable-tokens-offchain-java/src/main/java/org/cardanofoundation/cip113/controller/IssueTokenController.java:258 | the digit written for a value reads back as that value |
| Hex.DigitRoundTrip | src/programmable-tokens-offchain-java/src/main/java/org/cardanofoundation/cip113/model/onchain/RegistryNode.java:21-31 | a lower-case digit is written back as itself |
| Hex.HexSplit | src/programmable-tokens-offchain-java/src/main/java/org/cardanofoundation/cip113/model/onchain/RegistryNode.java:21-31 | hex text is its first two digits followed by hex text |
| RegistryNode.WithNext | src/programmable-tokens-offchain-java/src/main/java/org/cardanofoundation/cip113/model/onchain/RegistryNode.java:9-14 | the toBuilder copy changes next and keeps the other four fields |
| RegistryNode.ToPlutusData | src/programmable-tokens-offchain-java/src/main/java/org/cardanofoundation/cip113/model/onchain/RegistryNode.java:16-34 | always tag 0 with five fields; a blank key gives the head form that ignores the transfer fields; otherwise every field is hex-decoded; field 2 is next in both branches; fails exactly on text that is not hex |
| RegistryNode.RegularRoundTrip | src/programmable-tokens-offchain-java/src/main/java/org/cardanofoundation/cip113/model/onchain/RegistryNode.java:26-31 | a regular node with lower-case hex fields reads back unchanged |
| RegistryNode.HeadRoundTrip | src/programmable-tokens-offchain-java/src/main/java/org/cardanofoundation/cip113/model/onchain/RegistryNode.java:18-24 | a head node keeps only its successor |
| RegistryNode.HeadIgnoresTransferLogic | src/programmable-tokens-offchain-java/src/main/java/org/cardanofoundation/cip113/model/onchain/RegistryNode.java:18-24 | head nodes with the same next encode alike |
| RegistryNode.WithNextChangesOnlyField1 | src/programmable-tokens-offchain-java/src/main/java/org/cardanofoundation/cip113/model/onchain/RegistryNode.java:9-34 | rewriting next changes only the second datum field |
| RegistryNode.LowerHexIsNotBlank | src/programmable-tokens-offchain-java/src/main/java/org/cardanofoundation/cip113/model/onchain/RegistryNode.java:18 | a non-empty hex key takes the regular branch |
| IssueTokenController.FindFirst | src/programmable-tokens-offchain-java/src/main/java/org/cardanofoundation/cip113/controller/IssueTokenController.java:197-225 | the stream filter's match as the first hit; none exactly when no parseable node passes |
| IssueTokenController.GetSubstandardValidator | src/programmable-tokens-offchain-java/src/main/java/org/cardanofoundation/cip113/controller/IssueTokenController.java:148-149 | found exactly for a known (name, title); a null name or title finds nothing |
| IssueTokenController.ThirdPartyHashAsWritten | src/programmable-tokens-offchain-java/src/main/java/org/cardanofoundation/cip113/controller/IssueTokenController.java:151-154 | a non-empty result is the hash of the validator titled by the substandard's own name, and that validator is always found |
| IssueTokenController.ThirdPartyHash | src/programmable-tokens-offchain-java/src/main/java/org/cardanofoundation/cip113/controller/IssueTokenController.java:151-154 | corrected: a non-empty result is the hash of the requested third-party validator |
| IssueTokenController.ContractsFound | src/programmable-tokens-offchain-java/src/main/java/org/cardanofoundation/cip113/controller/IssueTokenController.java:148-159 | the issue and transfer validators are found exactly when all three names are present and both pairs are in the catalog |
| IssueTokenController.RegisterPayee | src/programmable-tokens-offchain-java/src/main/java/org/cardanofoundation/cip113/controller/IssueTokenController.java:310 | the payee is the registrar or a recipient that is not blank; it is never blank when the registrar is not |
| IssueTokenController.MintRecipient | src/programmable-tokens-offchain-java/src/main/java/org/cardanofoundation/cip113/controller/IssueTokenController.java:480-481 | a given recipient is used as it is, even blank; only null falls back to the issuer |
| IssueTokenController.NewNode | src/programmable-tokens-offchain-java/src/main/java/org/cardanofoundation/cip113/controller/IssueTokenController.java:262-266 | the new node takes the key and the gap node's next with an empty global-state field; for a key in the gap, gap.key < key < next |
| IssueTokenController.Register | src/programmable-tokens-offchain-java/src/main/java/org/cardanofoundation/cip113/controller/IssueTokenController.java:148-386 | missing contracts, already registered and no node to replace, each in both directions; a plan spends a gap node, rewrites its next, and creates (policyId, gap.next, transfer, third-party hash as looked up at 151-154, "") for the payee; the plan is returned when both datums encode, and otherwise the catch answers 500 |
| IssueTokenController.RegisterEncodesHexInputs | src/programmable-tokens-offchain-java/src/main/java/org/cardanofoundation/cip113/controller/IssueTokenController.java:257-332 | with a lower-case hex policy id, hex catalog hashes and registry nodes that encode, register never fails on encoding |
| IssueTokenController.PlanDatumsEncode | src/programmable-tokens-offchain-java/src/main/java/org/cardanofoundation/cip113/controller/IssueTokenController.java:257-266 | both planned datums encode; the rewritten node differs from the gap in field 1 only; the new node has the regular form |
| IssueTokenController.ChainKeysIncrease | src/programmable-tokens-offchain-java/src/main/java/org/cardanofoundation/cip113/controller/IssueTokenController.java:219-222 | the keys of a chain increase strictly |
| IssueTokenController.GapAtOrAfter | src/programmable-tokens-offchain-java/src/main/java/org/cardanofoundation/cip113/controller/IssueTokenController.java:207-225 | from a node below an absent key, some later node has it in its gap |
| IssueTokenController.GapUnique | src/programmable-tokens-offchain-java/src/main/java/org/cardanofoundation/cip113/controller/IssueTokenController.java:207-225 | at most one node of a chain has a key in its gap |
| IssueTokenController.GapOfAbsentKey | src/programmable-tokens-offchain-java/src/main/java/org/cardanofoundation/cip113/controller/IssueTokenController.java:207-225 | an absent key below the tail lies in exactly one node's gap |
| IssueTokenController.RegisteredKeyHasNoGap | src/programmable-tokens-offchain-java/src/main/java/org/cardanofoundation/cip113/controller/IssueTokenController.java:197-225 | a key already in the chain lies in no gap |
| IssueTokenController.Splice | src/programmable-tokens-offchain-java/src/main/java/org/cardanofoundation/cip113/controller/IssueTokenController.java:257-266 | the chain after the transaction: the gap node rewritten, then the new node, the rest in place |
| IssueTokenController.SpliceKeepsChain | src/programmable-tokens-offchain-java/src/main/java/org/cardanofoundation/cip113/controller/IssueTokenController.java:257-266 | splicing into the gap keeps a chain with key < next everywhere and the same tail |
| IssueTokenController.SpliceAddsKey | src/programmable-tokens-offchain-java/src/main/java/org/cardanofoundation/cip113/controller/IssueTokenController.java:257-266 | the splice adds exactly the new key |
| IssueTokenController.RegisterRejectsExactlyMembers | src/programmable-tokens-offchain-java/src/main/java/org/cardanofoundation/cip113/controller/IssueTokenController.java:197-379 | over a view of a chain, register rejects exactly the keys already in it |
| IssueTokenController.RegisterPlansSplice | src/programmable-tokens-offchain-java/src/main/java/org/cardanofoundation/cip113/controller/IssueTokenController.java:205-332 | over a view of a chain, every absent key below the tail gets a plan against its unique gap node, which encodes under hex inputs, and the datums splice into a chain with one more key |
| IssueTokenController.ThirdPartyHashOfRequested | src/programmable-tokens-offchain-java/src/main/java/org/cardanofoundation/cip113/controller/IssueTokenController.java:151-154 | the corrected lookup yields the requested third-party validator's hash, or "" |
| IssueTokenController.AsWrittenIgnoresThirdPartyName | src/programmable-tokens-offchain-java/src/main/java/org/cardanofoundation/cip113/controller/IssueTokenController.java:151-154 | as written, the requested third-party contract never affects the hash |
| IssueTokenController.AsWrittenLosesThirdPartyHash | src/programmable-tokens-offchain-java/src/main/java/org/cardanofoundation/cip113/controller/IssueTokenController.java:151-154 | a request whose third-party validator exists gets a planned node that records "" as written, where the requested lookup gives its hash |
| IssueTokenController.PayeeRulesDiffer | src/programmable-tokens-offchain-java/src/main/java/org/cardanofoundation/cip113/controller/IssueTokenController.java:310-481 | register falls back on a null or blank recipient, mint only on null; the two rules differ exactly for a blank recipient that is not the fallback |
| IssueTokenController.Rotated | src/programmable-tokens-offchain-java/src/main/java/org/cardanofoundation/cip113/controller/IssueTokenController.java:350-356 | the hook's output list is a permutation of the outputs |
| IssueTokenController.RotatedMovesFeePayerOutput | src/programmable-tokens-offchain-java/src/main/java/org/cardanofoundation/cip113/controller/IssueTokenController.java:350-507 | the fee payer's first output moves to the end and the others keep their order; otherwise nothing moves |
| IssueTokenController.TransactionBody.PreBalance | src/programmable-tokens-offchain-java/src/main/java/org/cardanofoundation/cip113/controller/IssueTokenController.java:350-507 | in place: getFirst fails on no outputs, otherwise the outputs become the rotation |
| ProtocolBootstrap.PutAll | src/programmable-tokens-offchain-java/src/main/java/org/cardanofoundation/cip113/service/ProtocolBootstrapService.java:60-63 | the map's keys are the old keys plus every hash of the list |
| ProtocolBootstrap.PutAllLastWins | src/programmable-tokens-offchain-java/src/main/java/org/cardanofoundation/cip113/service/ProtocolBootstrapService.java:60-63 | a hash maps to the last element carrying it |
| ProtocolBootstrap.PutAllKeepsOthers | src/programmable-tokens-offchain-java/src/main/java/org/cardanofoundation/cip113/service/ProtocolBootstrapService.java:60-63 | hashes the list does not mention keep their entries |
| ProtocolBootstrap.PutAllKeyedByHash | src/programmable-tokens-offchain-java/src/main/java/org/cardanofoundation/cip113/service/ProtocolBootstrapService.java:60-63 | every loaded entry is stored under its own hash |
| ProtocolBootstrap.LastIndex | src/programmable-tokens-offchain-java/src/main/java/org/cardanofoundation/cip113/service/ProtocolBootstrapService.java:60-63 | each hash in the list has a last occurrence |
| ProtocolBootstrap.LookupAfterLoad | src/programmable-tokens-offchain-java/src/main/java/org/cardanofoundation/cip113/service/ProtocolBootstrapService.java:60-101 | after loading, a hash is found exactly when the list has it, and finds its last element |
| ProtocolBootstrap.SelectDefaultCases | src/programmable-tokens-offchain-java/src/main/java/org/cardanofoundation/cip113/service/ProtocolBootstrapService.java:66-78 | a configured hash in the map wins; an unknown or empty one falls back to the first element; it fails only on an empty list |
| ProtocolBootstrap.SelectDefault | src/programmable-tokens-offchain-java/src/main/java/org/cardanofoundation/cip113/service/ProtocolBootstrapService.java:66-78 | fails exactly on an empty list without a usable configured hash; a result is an entry of the map or the first element |
| ProtocolBootstrap.DefaultIsLastWithHash | src/programmable-tokens-offchain-java/src/main/java/org/cardanofoundation/cip113/service/ProtocolBootstrapService.java:66-72 | a found default hash selects the last list element with it |
| ProtocolBootstrap.ProtocolBootstrapService.Init | src/programmable-tokens-offchain-java/src/main/java/org/cardanofoundation/cip113/service/ProtocolBootstrapService.java:59-78 | the loop fills the map as PutAll; success exactly when a default is selected; the blueprint is set only then |
| ProtocolBootstrap.FindContract | src/programmable-tokens-offchain-java/src/main/java/org/cardanofoundation/cip113/service/ProtocolBootstrapService.java:112-117 | the code of a validator titled exactly so; none exactly when no title matches |
| ProtocolBootstrap.ProtocolBootstrapService.ByTxHash | src/programmable-tokens-offchain-java/src/main/java/org/cardanofoundation/cip113/service/ProtocolBootstrapService.java:99-101 | present exactly for a hash in the map, with its entry |
| ProtocolBootstrap.ProtocolBootstrapService.AllBootstraps | src/programmable-tokens-offchain-java/src/main/java/org/cardanofoundation/cip113/service/ProtocolBootstrapService.java:108-110 | a copy equal to the map |
| ProtocolBootstrap.ProtocolBootstrapService.GetProtocolContract | src/programmable-tokens-offchain-java/src/main/java/org/cardanofoundation/cip113/service/ProtocolBootstrapService.java:112-117 | the code of a validator with that title; empty exactly when none has it |
| Substandards.FindById | src/programmable-tokens-frontend/lib/api/substandards.ts:19-20 | the first substandard with the id; none exactly when no substandard has it |
| Substandards.Titles | src/programmable-tokens-frontend/lib/api/substandards.ts:22 | the titles in order, one per validator |
| Substandards.GetValidatorTitles | src/programmable-tokens-frontend/lib/api/substandards.ts:18-23 | [] for an unknown id; otherwise the first matching substandard's titles, in order and of the same length |
| Substandards.HasValidatorOfFirst | src/programmable-tokens-frontend/lib/api/substandards.ts:28-35 | true exactly when the first substandard with the id lists the title; false for an unknown id |
| Substandards.HasValidator | src/programmable-tokens-frontend/lib/api/substandards.ts:28-35 | true only when a substandard with that id lists a validator with that title |
| BalanceLogRepository.Select | src/programmable-tokens-offchain-java/src/main/java/org/cardanofoundation/cip113/repository/BalanceLogRepository.java:19-21 | the rows satisfying the WHERE clause, each as often as stored; a null name matches only null |
| BalanceLogRepository.Matches | src/programmable-tokens-offchain-java/src/main/java/org/cardanofoundation/cip113/repository/BalanceLogRepository.java:19-118 | a stake-key clause matches only rows with that stake key, an asset clause only rows with that asset name (null with null), the programmable clause only programmable rows |
| BalanceLogRepository.SelectAppend | src/programmable-tokens-offchain-java/src/main/java/org/cardanofoundation/cip113/repository/BalanceLogRepository.java:19-21 | selection over one more row adds it exactly when it matches |
| BalanceLogRepository.IncreasingIdsDistinct | src/programmable-tokens-offchain-java/src/main/java/org/cardanofoundation/cip113/entity/BalanceLogEntity.java:31-33 | identity ids tell stored rows apart |
| BalanceLogRepository.KeepLatest | src/programmable-tokens-offchain-java/src/main/java/org/cardanofoundation/cip113/repository/BalanceLogRepository.java:33-38 | `id IN (SELECT MAX(id) … GROUP BY …)` keeps exactly each group's greatest-id rows |
| BalanceLogRepository.LatestRows | src/programmable-tokens-offchain-java/src/main/java/org/cardanofoundation/cip113/repository/BalanceLogRepository.java:33-38 | slot-sorted rows that are exactly the latest matching rows of their asset |
| BalanceLogRepository.LatestRowsCoverEveryAsset | src/programmable-tokens-offchain-java/src/main/java/org/cardanofoundation/cip113/repository/BalanceLogRepository.java:33-39 | every asset with a matching row has a no-older row in the result |
| BalanceLogRepository.LatestRowsOnePerAsset | src/programmable-tokens-offchain-java/src/main/java/org/cardanofoundation/cip113/repository/BalanceLogRepository.java:33-39 | with increasing ids, no asset appears twice |
| BalanceLogRepository.LatestOfAssetExists | src/programmable-tokens-offchain-java/src/main/java/org/cardanofoundation/cip113/repository/BalanceLogRepository.java:34-37 | each group has a MAX(id) row |
| BalanceLogRepository.IncreasingCountsOnce | src/programmable-tokens-offchain-java/src/main/java/org/cardanofoundation/cip113/entity/BalanceLogEntity.java:31-33 | with increasing ids, a row is stored at most once |
| BalanceLogRepository.FindLatestByAddressAndAsset | src/programmable-tokens-offchain-java/src/main/java/org/cardanofoundation/cip113/repository/BalanceLogRepository.java:19-28 | the first page rows of the (address, asset) by slot DESC, id DESC, none left out ranking higher |
| BalanceLogRepository.FindHistoryByAddressAndAsset | src/programmable-tokens-offchain-java/src/main/java/org/cardanofoundation/cip113/repository/BalanceLogRepository.java:44-53 | matching rows by descending slot, truncated to the page; no row left out has a greater slot |
| BalanceLogRepository.FindAllByAddressOrderBySlotDesc | src/programmable-tokens-offchain-java/src/main/java/org/cardanofoundation/cip113/repository/BalanceLogRepository.java:58-62 | the address's rows by descending slot, truncated to the page |
| BalanceLogRepository.FindAllLatestByAddress | src/programmable-tokens-offchain-java/src/main/java/org/cardanofoundation/cip113/repository/BalanceLogRepository.java:33-39 | exactly the max-id row per asset of the address, by slot |
| BalanceLogRepository.FindAllLatestByPaymentScriptHash | src/programmable-tokens-offchain-java/src/main/java/org/cardanofoundation/cip113/repository/BalanceLogRepository.java:67-73 | exactly the max-id rows per (address, asset) under the script |
| BalanceLogRepository.FindAllLatestByStakeKeyHash | src/programmable-tokens-offchain-java/src/main/java/org/cardanofoundation/cip113/repository/BalanceLogRepository.java:78-84 | the same for the stake key; rows without one never appear |
| BalanceLogRepository.FindAllLatestByPaymentScriptHashAndStakeKeyHash | src/programmable-tokens-offchain-java/src/main/java/org/cardanofoundation/cip113/repository/BalanceLogRepository.java:89-100 | the same for both filters |
| BalanceLogRepository.FindProgrammableTokenBalancesByAddress | src/programmable-tokens-offchain-java/src/main/java/org/cardanofoundation/cip113/repository/BalanceLogRepository.java:111-118 | only programmable rows, both for the filter and for each group's MAX(id) |
| BalanceLogRepository.ProgrammableLatestRows | src/programmable-tokens-offchain-java/src/main/java/org/cardanofoundation/cip113/repository/BalanceLogRepository.java:111-118 | the kept rows are at the address and flagged programmable |
| BalanceLogRepository.LatestRowsMatch | src/programmable-tokens-offchain-java/src/main/java/org/cardanofoundation/cip113/repository/BalanceLogRepository.java:33-118 | every kept row is stored and matches the clause |
| BalanceLogRepository.FindAllByTxHash | src/programmable-tokens-offchain-java/src/main/java/org/cardanofoundation/cip113/repository/BalanceLogRepository.java:105-106 | every row of the transaction, as often as stored, by (address, policyId, assetName) |
| BalanceLogRepository.ExistsByAddressAndPolicyIdAndAssetNameAndTxHash | src/programmable-tokens-offchain-java/src/main/java/org/cardanofoundation/cip113/repository/BalanceLogRepository.java:123-125 | true exactly when some row agrees on all four columns, null name matching null |
| BalanceLogRepository.SaveRow | src/programmable-tokens-offchain-java/src/main/java/org/cardanofoundation/cip113/entity/BalanceLogEntity.java:22-33 | save gives the next id and appends; the unique constraint (which null names escape) rejects |
| BalanceLogRepository.BalanceLogTable.Save | src/programmable-tokens-offchain-java/src/main/java/org/cardanofoundation/cip113/entity/BalanceLogEntity.java:22-33 | the table method changes the state as SaveRow |
| BalanceLogOrder.BeforeTotal | src/programmable-tokens-offchain-java/src/main/java/org/cardanofoundation/cip113/repository/BalanceLogRepository.java:22 | any two rows are ordered |
| BalanceLogOrder.BeforeTransitive | src/programmable-tokens-offchain-java/src/main/java/org/cardanofoundation/cip113/repository/BalanceLogRepository.java:22-105 | the orderings are transitive |
| BalanceLogOrder.NewestFirstAntisymmetric | src/programmable-tokens-offchain-java/src/main/java/org/cardanofoundation/cip113/repository/BalanceLogRepository.java:22 | ORDER BY slot DESC, id DESC ties only rows with the same id |
| BalanceLogOrder.Insert | src/programmable-tokens-offchain-java/src/main/java/org/cardanofoundation/cip113/repository/BalanceLogRepository.java:22 | insertion keeps a sorted sequence sorted, adding exactly the element |
| BalanceLogOrder.Sort | src/programmable-tokens-offchain-java/src/main/java/org/cardanofoundation/cip113/repository/BalanceLogRepository.java:22-105 | the query's rows in ORDER BY order, a sorted permutation |
| BalanceLogOrder.SortHeadIsTop | src/programmable-tokens-offchain-java/src/main/java/org/cardanofoundation/cip113/repository/BalanceLogRepository.java:22 | the sort puts first the row the newest-row scan picks |
| BalanceLogOrder.Take | src/programmable-tokens-offchain-java/src/main/java/org/cardanofoundation/cip113/repository/BalanceLogRepository.java:23-27 | PageRequest.of(0, n) keeps the first min(n, size) rows |
| BalanceLogOrder.Page | src/programmable-tokens-offchain-java/src/main/java/org/cardanofoundation/cip113/repository/BalanceLogRepository.java:22-27 | a sorted page of min(n, size) rows, each ranking no lower than any row left out |
| BalanceLogOrder.PrefixPrecedesRest | src/programmable-tokens-offchain-java/src/main/java/org/cardanofoundation/cip113/repository/BalanceLogRepository.java:22-27 | a prefix of a sorted sequence ranks no lower than the rest |
| BalanceLogOrder.PageBySlot | src/programmable-tokens-offchain-java/src/main/java/org/cardanofoundation/cip113/repository/BalanceLogRepository.java:44-62 | a slot page leaves out no row with a greater slot |
| BalanceLogOrder.PageOfOne | src/programmable-tokens-offchain-java/src/main/java/org/cardanofoundation/cip113/repository/BalanceLogRepository.java:19-28 | a page of one holds a row ranking no lower than every row |
| BalanceLogOrder.PageOfTwoAfterNewest | src/programmable-tokens-offchain-java/src/main/java/org/cardanofoundation/cip113/service/BalanceService.java:173-178 | with one strictly newest row, the page of two is it, then a newest other row |
| BalanceLogOrder.SortedHeadFirst | src/programmable-tokens-offchain-java/src/main/java/org/cardanofoundation/cip113/repository/BalanceLogRepository.java:22 | the head of a sorted sequence ranks no lower than every element |
| BalanceService.AppendRow | src/programmable-tokens-offchain-java/src/main/java/org/cardanofoundation/cip113/service/BalanceService.java:30-48 | an already stored key leaves the table and returns the argument; otherwise one row with the next id; the row is stored afterwards; ids and unique keys are preserved |
| BalanceService.Append | src/programmable-tokens-offchain-java/src/main/java/org/cardanofoundation/cip113/service/BalanceService.java:30-48 | the method changes the table as AppendRow |
| BalanceService.AppendTwiceStoresOnce | src/programmable-tokens-offchain-java/src/main/java/org/cardanofoundation/cip113/service/BalanceService.java:32-41 | a second identical append changes nothing; the row is stored once |
| BalanceService.GetLatestBalance | src/programmable-tokens-offchain-java/src/main/java/org/cardanofoundation/cip113/service/BalanceService.java:58-62 | empty exactly without history; otherwise a matching row ranking no lower by slot then id than every matching row |
| BalanceService.Newest | src/programmable-tokens-offchain-java/src/main/java/org/cardanofoundation/cip113/service/BalanceService.java:58-62 | reference scan: the matching row of greatest slot, then id; none exactly without matches |
| BalanceService.NewestIsTop | src/programmable-tokens-offchain-java/src/main/java/org/cardanofoundation/cip113/service/BalanceService.java:58-62 | the reference scan picks the row that comes first in the sort |
| BalanceService.LatestIsNewest | src/programmable-tokens-offchain-java/src/main/java/org/cardanofoundation/cip113/service/BalanceService.java:58-62 | getLatestBalance equals the reference newest-row scan |
| BalanceService.GetBalanceHistory | src/programmable-tokens-offchain-java/src/main/java/org/cardanofoundation/cip113/service/BalanceService.java:83-86 | at most limit matching rows by descending slot, none left out newer; a limit below 1 fails |
| BalanceService.GetAllBalanceHistory | src/programmable-tokens-offchain-java/src/main/java/org/cardanofoundation/cip113/service/BalanceService.java:95-98 | the same over every asset of the address |
| BalanceService.LatestRowsPerAsset | src/programmable-tokens-offchain-java/src/main/java/org/cardanofoundation/cip113/repository/BalanceLogRepository.java:33-118 | a latest-per-asset query returns each asset's latest matching row, covers every asset, and lists no asset twice |
| BalanceService.GetAllLatestBalances | src/programmable-tokens-offchain-java/src/main/java/org/cardanofoundation/cip113/service/BalanceService.java:70-72 | one latest row per asset of the address |
| BalanceService.GetLatestBalancesByPaymentScript | src/programmable-tokens-offchain-java/src/main/java/org/cardanofoundation/cip113/service/BalanceService.java:106-108 | only rows under that payment script, one latest per (address, asset) |
| BalanceService.GetLatestBalancesByStakeKey | src/programmable-tokens-offchain-java/src/main/java/org/cardanofoundation/cip113/service/BalanceService.java:116-118 | only rows with that stake key, one latest per (address, asset) |
| BalanceService.GetLatestBalancesByPaymentScriptAndStakeKey | src/programmable-tokens-offchain-java/src/main/java/org/cardanofoundation/cip113/service/BalanceService.java:127-130 | only rows with both, one latest per (address, asset) |
| BalanceService.GetProgrammableTokenBalances | src/programmable-tokens-offchain-java/src/main/java/org/cardanofoundation/cip113/service/BalanceService.java:148-150 | only programmable rows at the address, one latest per asset |
| BalanceService.GetBalancesByTransaction | src/programmable-tokens-offchain-java/src/main/java/org/cardanofoundation/cip113/service/BalanceService.java:138-140 | exactly the transaction's rows, ordered by asset key; with unique keys, one per (address, asset) |
| BalanceService.CalculateBalanceDiff | src/programmable-tokens-offchain-java/src/main/java/org/cardanofoundation/cip113/service/BalanceService.java:159-164 | the whole quantity for a first row; otherwise the previous quantity plus the result is the current one |
| BalanceService.FirstWithOtherId | src/programmable-tokens-offchain-java/src/main/java/org/cardanofoundation/cip113/service/BalanceService.java:181-187 | the first row, in order, whose id differs; none exactly when all share it |
| BalanceService.PreviousBalance | src/programmable-tokens-offchain-java/src/main/java/org/cardanofoundation/cip113/service/BalanceService.java:172-188 | a returned row is another stored row of the same balance |
| BalanceService.GetPreviousBalance | src/programmable-tokens-offchain-java/src/main/java/org/cardanofoundation/cip113/service/BalanceService.java:172-188 | the early-return loop returns what PreviousBalance does |
| BalanceService.PreviousOfAppended | src/programmable-tokens-offchain-java/src/main/java/org/cardanofoundation/cip113/service/BalanceService.java:172-188 | for a row just appended at a newer slot, the previous balance is the latest before the append |
| BalanceService.PreviousOfFirstRow | src/programmable-tokens-offchain-java/src/main/java/org/cardanofoundation/cip113/service/BalanceService.java:172-188 | a balance's first row has no previous balance |
| BalanceService.PreviousOfLaterRow | src/programmable-tokens-offchain-java/src/main/java/org/cardanofoundation/cip113/service/BalanceService.java:172-188 | a later row's previous balance is the latest stored before it |
| BalanceService.HistoryAfterAppend | src/programmable-tokens-offchain-java/src/main/java/org/cardanofoundation/cip113/service/BalanceService.java:173-178 | right after an append at a newer slot, the page of two is the new row, then the newest earlier one |
| BalanceService.NewestBySlotIsLatest | src/programmable-tokens-offchain-java/src/main/java/org/cardanofoundation/cip113/service/BalanceService.java:58-62 | under distinct slots, the row of greatest slot is the latest balance |
| BalanceService.PreviousOfOlderRowIsNewer | src/programmable-tokens-offchain-java/src/main/java/org/cardanofoundation/cip113/service/BalanceService.java:172-188 | as written, an older row's "previous" balance is the newer row |
| BalanceService.RowsOlderThan | src/programmable-tokens-offchain-java/src/main/java/org/cardanofoundation/cip113/service/BalanceService.java:180 | exactly the stored rows before the entry, by slot then id |
| BalanceService.PriorBalance | src/programmable-tokens-offchain-java/src/main/java/org/cardanofoundation/cip113/service/BalanceService.java:166-171 | corrected: the newest same-balance row before the entry; none exactly for its first row |
| BalanceService.PriorOfFirstRow | src/programmable-tokens-offchain-java/src/main/java/org/cardanofoundation/cip113/service/BalanceService.java:166-171 | the older of two rows has no prior balance |
| BalanceService.PriorOfAppended | src/programmable-tokens-offchain-java/src/main/java/org/cardanofoundation/cip113/service/BalanceService.java:166-171 | for a row after every stored row, the prior balance is the latest before it |
| BalanceService.RowsOlderThanBatchRow | src/programmable-tokens-offchain-java/src/main/java/org/cardanofoundation/cip113/service/BalanceEventListener.java:98-126 | for a row of one transaction's batch, the older rows are the stored ones and the batch rows ahead |
| BalanceEventListener.ParseUnit | src/programmable-tokens-offchain-java/src/main/java/org/cardanofoundation/cip113/service/BalanceEventListener.java:149-161 | lovelace is (ADA, none); a unit of 56 or more characters splits into its policy id and optional non-empty name; shorter fails |
| BalanceEventListener.UnitOfParseUnit | src/programmable-tokens-offchain-java/src/main/java/org/cardanofoundation/cip113/service/BalanceEventListener.java:149-161 | an accepted unit is the unit of what it parses to |
| BalanceEventListener.ParseUnitOf | src/programmable-tokens-offchain-java/src/main/java/org/cardanofoundation/cip113/service/BalanceEventListener.java:149-161 | the parser reads back lovelace and every 56-character policy with an optional name |
| BalanceEventListener.NullNameSharesKey | src/programmable-tokens-offchain-java/src/main/java/org/cardanofoundation/cip113/service/BalanceEventListener.java:164 | the string key writes a null name as "null", unlike the stored row's columns |
| BalanceEventListener.ChangeKeyInjective | src/programmable-tokens-offchain-java/src/main/java/org/cardanofoundation/cip113/service/BalanceEventListener.java:164 | with no separator in addresses and policy ids, equal keys mean equal address, policy id and asset-name text |
| BalanceEventListener.Find | src/programmable-tokens-offchain-java/src/main/java/org/cardanofoundation/cip113/service/BalanceEventListener.java:166-168 | a key's position in the map of changes; none exactly when absent |
| BalanceEventListener.FindAppend | src/programmable-tokens-offchain-java/src/main/java/org/cardanofoundation/cip113/service/BalanceEventListener.java:166-168 | a new key is found at the end; old keys are found where they were |
| BalanceEventListener.AddAmount | src/programmable-tokens-offchain-java/src/main/java/org/cardanofoundation/cip113/service/BalanceEventListener.java:164-175 | one amount keeps the keys already in the map in place and adds at most one |
| BalanceEventListener.AddAmountNet | src/programmable-tokens-offchain-java/src/main/java/org/cardanofoundation/cip113/service/BalanceEventListener.java:164-175 | one amount moves its own key's change up for an output or down for an input, and no other key's |
| BalanceEventListener.AddAmountFind | src/programmable-tokens-offchain-java/src/main/java/org/cardanofoundation/cip113/service/BalanceEventListener.java:164-168 | computeIfAbsent adds the amount's key if missing and no other |
| BalanceEventListener.AddAmountDistinct | src/programmable-tokens-offchain-java/src/main/java/org/cardanofoundation/cip113/service/BalanceEventListener.java:166-168 | the map never holds a key twice |
| BalanceEventListener.ProcessUtxo | src/programmable-tokens-offchain-java/src/main/java/org/cardanofoundation/cip113/service/BalanceEventListener.java:135-177 | processing a UTxO keeps the keys already in the map in place and adds at most one per amount |
| BalanceEventListener.Monitored | src/programmable-tokens-offchain-java/src/main/java/org/cardanofoundation/cip113/service/BalanceEventListener.java:82-86 | an address is monitored exactly when it decomposes with a programmable-logic payment script hash |
| BalanceEventListener.SpentUtxo | src/programmable-tokens-offchain-java/src/main/java/org/cardanofoundation/cip113/service/BalanceEventListener.java:64-87 | an input counts exactly when its UTxO is known and sits at a monitored address |
| BalanceEventListener.ProcessUtxoNet | src/programmable-tokens-offchain-java/src/main/java/org/cardanofoundation/cip113/service/BalanceEventListener.java:142-176 | a UTxO moves each key's change by its amounts' total |
| BalanceEventListener.ProcessUtxoFind | src/programmable-tokens-offchain-java/src/main/java/org/cardanofoundation/cip113/service/BalanceEventListener.java:142-176 | after a UTxO a key is held exactly if it was held before or one of the amounts carries it |
| BalanceEventListener.ProcessUtxoDistinct | src/programmable-tokens-offchain-java/src/main/java/org/cardanofoundation/cip113/service/BalanceEventListener.java:142-176 | processUtxo keeps keys distinct |
| BalanceEventListener.ApplyAmount | src/programmable-tokens-offchain-java/src/main/java/org/cardanofoundation/cip113/service/BalanceEventListener.java:143-175 | the loop body is one AddAmount step |
| BalanceEventListener.AccumulateUtxo | src/programmable-tokens-offchain-java/src/main/java/org/cardanofoundation/cip113/service/BalanceEventListener.java:142-176 | the loop over amounts computes ProcessUtxo |
| BalanceEventListener.ProcessInputsNet | src/programmable-tokens-offchain-java/src/main/java/org/cardanofoundation/cip113/service/BalanceEventListener.java:64-87 | spent monitored inputs lower each key by their total; unknown or unmonitored inputs count nothing |
| BalanceEventListener.ProcessOutputsNet | src/programmable-tokens-offchain-java/src/main/java/org/cardanofoundation/cip113/service/BalanceEventListener.java:90-95 | monitored outputs raise each key by their total |
| BalanceEventListener.ProcessInputs | src/programmable-tokens-offchain-java/src/main/java/org/cardanofoundation/cip113/service/BalanceEventListener.java:64-87 | the inputs keep the keys already in the map in place |
| BalanceEventListener.ProcessOutputs | src/programmable-tokens-offchain-java/src/main/java/org/cardanofoundation/cip113/service/BalanceEventListener.java:90-95 | the outputs keep the keys already in the map in place |
| BalanceEventListener.TxChanges | src/programmable-tokens-offchain-java/src/main/java/org/cardanofoundation/cip113/service/BalanceEventListener.java:54-95 | the map of a transaction holds each key once |
| BalanceEventListener.ProcessInputsFind | src/programmable-tokens-offchain-java/src/main/java/org/cardanofoundation/cip113/service/BalanceEventListener.java:64-87 | after the inputs a key is held exactly if it was before or an input carries it |
| BalanceEventListener.ProcessOutputsFind | src/programmable-tokens-offchain-java/src/main/java/org/cardanofoundation/cip113/service/BalanceEventListener.java:90-95 | the same for outputs |
| BalanceEventListener.TxChangesNet | src/programmable-tokens-offchain-java/src/main/java/org/cardanofoundation/cip113/service/BalanceEventListener.java:60-175 | a key's net change is its outputs' total minus its spent inputs' total |
| BalanceEventListener.TxChangesFind | src/programmable-tokens-offchain-java/src/main/java/org/cardanofoundation/cip113/service/BalanceEventListener.java:60-95 | a key has a change exactly when a monitored input or output carries it |
| BalanceEventListener.TxChangeNet | src/programmable-tokens-offchain-java/src/main/java/org/cardanofoundation/cip113/service/BalanceEventListener.java:60-175 | each change of the map is for a touched key and holds outputs minus inputs |
| BalanceEventListener.CollectChanges | src/programmable-tokens-offchain-java/src/main/java/org/cardanofoundation/cip113/service/BalanceEventListener.java:60-95 | the two loops build the transaction's map of changes |
| BalanceEventListener.LatestQuantity | src/programmable-tokens-offchain-java/src/main/java/org/cardanofoundation/cip113/service/BalanceEventListener.java:100-104 | the latest stored quantity, or zero |
| BalanceEventListener.BalanceBefore | src/programmable-tokens-offchain-java/src/main/java/org/cardanofoundation/cip113/service/BalanceEventListener.java:100-104 | zero without history; otherwise the quantity of a stored row of that balance |
| BalanceEventListener.NewRow | src/programmable-tokens-offchain-java/src/main/java/org/cardanofoundation/cip113/service/BalanceEventListener.java:107-124 | the row has the change's unique key with the transaction's hash, differs from the prior balance by the net change, and is flagged exactly for registered policies |
| BalanceEventListener.SaveChange | src/programmable-tokens-offchain-java/src/main/java/org/cardanofoundation/cip113/service/BalanceEventListener.java:99-126 | one append of the prior balance plus the change, stamped with the transaction |
| BalanceEventListener.SaveChanges | src/programmable-tokens-offchain-java/src/main/java/org/cardanofoundation/cip113/service/BalanceEventListener.java:98-131 | the forEach appends every change in order |
| BalanceEventListener.RecordChanges | src/programmable-tokens-offchain-java/src/main/java/org/cardanofoundation/cip113/service/BalanceEventListener.java:98-131 | recording changes only grows the log |
| BalanceEventListener.ProcessTx | src/programmable-tokens-offchain-java/src/main/java/org/cardanofoundation/cip113/service/BalanceEventListener.java:54-131 | one transaction only grows the log |
| BalanceEventListener.RecordChangesWellFormed | src/programmable-tokens-offchain-java/src/main/java/org/cardanofoundation/cip113/service/BalanceEventListener.java:98-131 | recording keeps ids increasing below the next id |
| BalanceEventListener.RecordChangesKeysUnique | src/programmable-tokens-offchain-java/src/main/java/org/cardanofoundation/cip113/service/BalanceEventListener.java:98-131 | recording keeps the unique columns unique |
| BalanceEventListener.RecordChangesRecorded | src/programmable-tokens-offchain-java/src/main/java/org/cardanofoundation/cip113/service/BalanceEventListener.java:98-131 | after recording, every change has a row of the transaction |
| BalanceEventListener.ProcessTxs | src/programmable-tokens-offchain-java/src/main/java/org/cardanofoundation/cip113/service/BalanceEventListener.java:54-132 | the event's transactions only grow the log |
| BalanceEventListener.ProcessTxsKeepsInvariants | src/programmable-tokens-offchain-java/src/main/java/org/cardanofoundation/cip113/service/BalanceEventListener.java:54-132 | every transaction keeps ids increasing and keys unique |
| BalanceEventListener.ProcessTxsRecorded | src/programmable-tokens-offchain-java/src/main/java/org/cardanofoundation/cip113/service/BalanceEventListener.java:54-132 | after the event, each of its transactions is recorded |
| BalanceEventListener.EventSpec | src/programmable-tokens-offchain-java/src/main/java/org/cardanofoundation/cip113/service/BalanceEventListener.java:32-133 | an event only grows the log |
| BalanceEventListener.ProcessEvent | src/programmable-tokens-offchain-java/src/main/java/org/cardanofoundation/cip113/service/BalanceEventListener.java:32-133 | the method changes the table as EventSpec |
| BalanceEventListener.EventKeepsInvariants | src/programmable-tokens-offchain-java/src/main/java/org/cardanofoundation/cip113/service/BalanceEventListener.java:32-133 | every event keeps ids increasing and keys unique |
| BalanceEventListener.NoProtocolParamsRecordsNothing | src/programmable-tokens-offchain-java/src/main/java/org/cardanofoundation/cip113/service/BalanceEventListener.java:36-40 | without protocol params nothing is recorded |
| BalanceEventListener.RecordRecordedUnchanged | src/programmable-tokens-offchain-java/src/main/java/org/cardanofoundation/cip113/service/BalanceEventListener.java:126 | recording already recorded changes leaves the table as it is |
| BalanceEventListener.RecordedTxsUnchanged | src/programmable-tokens-offchain-java/src/main/java/org/cardanofoundation/cip113/service/BalanceEventListener.java:54-132 | recorded transactions processed again change nothing |
| BalanceEventListener.ReprocessTxUnchanged | src/programmable-tokens-offchain-java/src/main/java/org/cardanofoundation/cip113/service/BalanceEventListener.java:126 | delivering a transaction again, in any later block, changes nothing |
| BalanceEventListener.ReprocessEventUnchanged | src/programmable-tokens-offchain-java/src/main/java/org/cardanofoundation/cip113/service/BalanceEventListener.java:32-133 | processing an event twice is processing it once |
| BalanceEventListener.RecordFreshChanges | src/programmable-tokens-offchain-java/src/main/java/org/cardanofoundation/cip113/service/BalanceEventListener.java:98-126 | a first-seen transaction appends one row per change, in order, from the next id |
| BalanceEventListener.FreshTxShape | src/programmable-tokens-offchain-java/src/main/java/org/cardanofoundation/cip113/service/BalanceEventListener.java:54-131 | a first-seen transaction's rows are exactly the fresh rows of its changes |
| BalanceEventListener.FreshTableRow | src/programmable-tokens-offchain-java/src/main/java/org/cardanofoundation/cip113/service/BalanceEventListener.java:100-124 | each fresh row is stamped with the hash, slot, block and registry flag, and holds the prior balance plus its change |
| BalanceEventListener.FreshTxRowStamp | src/programmable-tokens-offchain-java/src/main/java/org/cardanofoundation/cip113/service/BalanceEventListener.java:113-124 | row i has id nextId + i and the transaction's hash, slot, block and registry flag |
| BalanceEventListener.FreshTxRow | src/programmable-tokens-offchain-java/src/main/java/org/cardanofoundation/cip113/service/BalanceEventListener.java:100-107 | each new row is for a touched key and holds the prior balance plus outputs minus inputs |
| BalanceEventListener.FreshTxCovers | src/programmable-tokens-offchain-java/src/main/java/org/cardanofoundation/cip113/service/BalanceEventListener.java:98-126 | the new rows' keys are exactly the touched keys, with no zero filter |
| BalanceEventListener.TouchedKeyHasRow | src/programmable-tokens-offchain-java/src/main/java/org/cardanofoundation/cip113/service/BalanceEventListener.java:98-126 | every touched key gets a row |
| BalanceEventListener.RowKeyIsTouched | src/programmable-tokens-offchain-java/src/main/java/org/cardanofoundation/cip113/service/BalanceEventListener.java:98-126 | every new row is for a touched key |
| BalanceEventListener.RecordedDiffIsNetChange | src/programmable-tokens-offchain-java/src/main/java/org/cardanofoundation/cip113/service/BalanceEventListener.java:100-107 | a new row's difference from its prior balance is the transaction's net change for that key |
| BalanceEventListener.FreshTableDiff | src/programmable-tokens-offchain-java/src/main/java/org/cardanofoundation/cip113/service/BalanceEventListener.java:100-107 | the same for any table extended by the fresh rows |
| BalanceEventListener.LatestOfSameRows | src/programmable-tokens-offchain-java/src/main/java/org/cardanofoundation/cip113/service/BalanceService.java:58-62 | getLatestBalance depends only on its (address, asset)'s rows |
| BalanceEventListener.BalanceBeforeSkip | src/programmable-tokens-offchain-java/src/main/java/org/cardanofoundation/cip113/service/BalanceEventListener.java:100-104 | rows of other assets leave the prior balance unchanged |
| BalanceEventListener.FreshNotRecorded | src/programmable-tokens-offchain-java/src/main/java/org/cardanofoundation/cip113/service/BalanceService.java:32-41 | a new transaction's row is not yet stored, so append saves it |
| BalanceEventListener.DiffOfRecordedRow | src/programmable-tokens-offchain-java/src/main/java/org/cardanofoundation/cip113/service/BalanceService.java:159-164 | a row built as prior plus delta differs from that prior by delta |

## Left out

- Script plumbing in `register` and `mint` is not modelled: parameterising scripts, deriving addresses, composing and balancing the transaction, and CBOR serialisation are foreign library calls. The new token's policy id is an input given as hex, and the transfer script hash is the catalog validator's hash.
- `RegistryNodeParser` is not part of this model. Each registry UTxO comes with the result of parsing its datum, or none. `FromPlutusData` is a reference reader used for the round-trip lemmas. The re-parse at lines 233-237 of the controller gives the same node, so it is not modelled as a separate outcome.
- `SubstandardService` is a catalog map from (substandard name, validator title) to a validator.
- `AddressUtil.decompose`, `UtxoRepository.findById`, `ProtocolParamsService.getAll` and `RegistryService.isTokenRegistered` are inputs to the listener: maps, a list of script hashes and a set of registered policies.
- The earlier lookups in `register` and `mint` are not modelled: the protocol-params, issuance and registrar UTxOs and `could not resolve …` errors. Their failures happen before the registry logic.
- `mint` is modelled only through its recipient rule and its pre-balance hook. The rest of it is transaction building.
- `RegisterTokenRequest` does not declare the accessors the controller reads. The request is modelled as the fields the controller reads.
- `new BigInteger(quantity)`, logging, the `createdAt` clock stamp, Spring event delivery, `@Transactional` and the `ConcurrentHashMap` concurrency are not modelled. The map is a plain map.
- The JSON loading in `ProtocolBootstrapService.init` is not modelled. `Init` receives the parsed bootstrap list and blueprint validators, and an empty list is the `getFirst` failure.
- Column-length rejection by the database is not modelled. `ColumnsFit` states the declared lengths.
- BalanceLogRepository.FindAllByTxHash and BalanceService.GetBalancesByTransaction: `ORDER BY address, policyId, assetName` is sorted in the model by character order with a null name first. The database's collation and NULL placement decide the real order, so `Sorted(ByAssetKey, …)` is the model's choice. Only each query's rows and their multiplicity follow the source.
- `ChangeKey` has no contract of its own. `ChangeKeyInjective` and `NullNameSharesKey` state what the key tells apart.
- The transfer hash that `register` writes is `HexUtil.encodeHexString` of the transfer script's hash, so the source always produces hex there. The model takes the catalog validator's hash text instead, so a non-hex catalog hash is one more way to reach `DatumNotEncodable` in the model.
- HashMap iteration order is not modelled. The listener's map of changes is iterated in the order its keys were first touched. Rows of one transaction have distinct keys, so no stored balance depends on this order; only the ids of the rows do.
- BalanceEventListener.BalanceBefore: reads the prior balance through the reference scan `Newest` rather than through `GetLatestBalance`. `LatestIsNewest` proves the two equal on every log.
- BalanceService.PreviousBalance: its own contract states only that a result is another row of the same balance. What it returns is pinned by `GetPreviousBalance`, `PreviousOfAppended`, `PreviousOfLaterRow`, `PreviousOfOlderRowIsNewer` and `FirstWithOtherId`.
- `ORDER BY slot DESC` leaves rows with the same slot in an order the database chooses. In the model, the sort is one fixed stable insertion sort, and every contract about it states only the slot relation.
- The frontend UI, the API client calls, `TransferTokenController` and `BalanceController` are outside the core.

## Findings

| source | as written | input that shows it | evidently intended | confidence | as-written member | corrected member |
|---|---|---|---|---|---|---|
| src/programmable-tokens-offchain-java/src/main/java/org/cardanofoundation/cip113/controller/IssueTokenController.java:151-154 | the third-party hash is looked up with the substandard name as the validator title, so the requested third-party contract is never used | a catalog holding ("blacklist", "blacklist_thirdparty") and a request naming that third-party contract: the new node records "" | look up (substandardName, substandardThirdPartyContractName) | not executed | IssueTokenController.AsWrittenLosesThirdPartyHash | IssueTokenController.ThirdPartyHashOfRequested |
| src/programmable-tokens-offchain-java/src/main/java/org/cardanofoundation/cip113/service/BalanceService.java:172-188 | the method takes the two newest rows by slot and returns the first whose id differs, which for an older row is a newer one | two rows of one balance at slots 1 and 2: the previous balance of the slot-1 row is the slot-2 row | the row of the same balance just before the entry, or none for its first row | not executed | BalanceService.PreviousOfOlderRowIsNewer | BalanceService.PriorBalance |
