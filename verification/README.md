# A verified model of Fabric Smart Client

This Dafny project models the parts of Fabric Smart Client that decide something, and proves what they are
for. `dafny verify dfyconfig.toml` checks all of it.

**Channel configuration updates** (`integration/nwo/fabric/network/update.go`). `ConfigTree` holds
configurations as trees of groups, values and policies with 64-bit versions. `ConfigUpdate` has the four
map-building functions and `Compute` as methods with loops over the keys in any order, proved against the
recursive functions `ReadSet` and `WriteSet`. `ConfigApply` defines what installing an update means and
proves that diff followed by apply yields the target, for every two trees. `ConfigShape` proves that the write
set is the smallest one that does so. `ConfigChain` follows versions over any chain of updates.

**Car registry** (`integration/orion/cars`). `OrionKeys` is `sanitizeKey`, through which every key goes on its
way to the database, and `Base64Encoding` is base64 as RFC 4648 defines it. `CarValidation` has the two validators with their
loops. `CarProtocol` is one system of interleaved steps: any number of concurrent mints and transfers, each
party with its own program counter, messages in queues, and a ledger that rejects stale reads. `CarSafety`
carries the invariant through every step, `CarTheorems` states the results, and `CarProgress` proves exactly
when an undisturbed mint or transfer goes through.

**IOU endorsement** (`integration/fabric/iou/views`). `IouViews` has what the borrower assembles and what lender
and approver accept; `IouLedger` follows whole histories of the ledger.

**Service caches** (`platform/fabric/fns.go`, `platform/orion/ons.go` and the two `core/provider.go`).
`ServiceCache` interleaves any number of callers at every access to the lock, the map and the provider;
`NetworkProvider` has the provider itself, and the cache of networks
as a class for a call that nothing interrupts.

**Composite keys** (`pkg/utils/compose/compose.go`). `Utf8` is UTF-8 by sections 3 and 4 of RFC 3629, with its
byte order. `CompositeKey` has the key builder and proves unique decoding and the range property.

**Imports of a node** (`integration/nwo/fsc/node/node.go`). `Imports` has the sorted import list and the alias
table of a node as a class.

Some promises do not hold of the code as it stands. For each there is an input that shows it and the exact
condition under which the code delivers:

- `sanitizeKey` is not injective: registrations `a b` and `YSBi` are stored under one key, so the key of `YSBi`
  holds the car `a b`, which can be sold with a transfer that names `YSBi` (`CarProgress.SharedKeyRun`). A car
  key holds its own registration, and a transfer names the registration of the car it hands on, exactly if no
  minted registration sanitises to the same (`CarTheorems.OwnRegistrationIff`, `CarTheorems.DealNamesTheCarIff`;
  `OrionKeys.SharedIff`, `OrionKeys.SharedCases` and `OrionKeys.SafeIff` say when that is). Keys with different
  numbers of components may coincide too: `a b~` and `YSBi~~` (`OrionKeys.DoubledExample`).
- `sanitizeKey` is not idempotent, and the DMV applies it to a key that is sanitised already: a car whose
  registration is two spaces and a question mark can be minted but not sold (`CarProgress.UnstableKeyRun`,
  `CarProgress.NeverSold`). A transfer needs a registration that sanitising twice changes as sanitising once
  does (`CarTheorems.CommitsOnlyIfStable`, `CarProgress.GoesThroughIff`; `OrionKeys.StableIff` says when).
- Request ids are not injective in dealer and registration, even with an injective hash: `a_b` with `c` and `a`
  with `b_c` share one (`CarRecords.SharedRequestKey`); they differ exactly if the joined texts do
  (`CarRecords.RequestKeyIff`).
- `Identities.Match` is documented as equality up to positions, but accepts `[A, A]` for `[A, B]`
  (`IouViews.MatchAcceptsDuplicate`). It delivers for a passed list without duplicates
  (`IouViews.MatchOfDistinct`), and on an own list without duplicates for no other
  (`IouViews.MatchIsPermutation`). Hence an update may drop an owner, with
  the endorsement of the other alone (`IouLedger.OwnerCanBeDropped`); a commitment keeps the owners exactly if
  its output lists none twice (`IouLedger.OwnersKeptStep`, `IouLedger.OwnersKeptIffTheyDiffer`).
- The approver does not ask that a created IOU has a new linear id (`IouLedger.CreationCanReuseID`); a
  commitment keeps a single line of states per linear id exactly if it is an update or the id is new
  (`IouLedger.SingleLineStep`, `IouLedger.SingleLineIffFresh`).
- Versions are 64-bit counters; they never decrease exactly as long as they do not run over
  (`ConfigChain.VersionsNeverDecrease`, `ConfigChain.VersionRunsOver`).
- Aliases of imports with different last elements may coincide (`Imports.StaysDistinct`,
  `Imports.AliasesMayClash`, `Imports.ClashingImports`).

## Model

| member | source | states |
|---|---|---|
| `ConfigUpdate.ComputeEntriesMapUpdate` | integration/nwo/fabric/network/update.go:18-106 | for any order of the keys: the write set holds exactly the changed entries at the next version and the new ones at version 0, the same-set exactly the unchanged ones without content, and the flag tells whether the key sets differ |
| `ConfigUpdate.ComputeGroupsMapUpdate` | integration/nwo/fabric/network/update.go:108-151 | for any order of the keys: read, write and same-set are those of the specification, subgroup by subgroup, and the flag tells whether the key sets differ; terminates by the updated tree |
| `ConfigUpdate.AddGroup` | integration/nwo/fabric/network/update.go:134-148 | an added group is the whole updated subtree with every version 0, although it is computed as a diff against an empty group |
| `ConfigUpdate.AddedGroup` | integration/nwo/fabric/network/update.go:140-147 | the diff against the empty group is the whole tree with all versions 0, at every depth |
| `ConfigUpdate.UnchangedGroup` | integration/nwo/fabric/network/update.go:161-173 | both sets of a group with unchanged content are its bare version |
| `ConfigUpdate.MergeUnchanged` | integration/nwo/fabric/network/update.go:188-215 | the three merging loops add the unchanged members to both sets, in any order of the keys, and only the write set gets the next version and the mod policy |
| `ConfigUpdate.TouchedRead` | integration/nwo/fabric/network/update.go:188-207 | the read set of a group whose mod policy or membership changed is the set merged with the unchanged members |
| `ConfigUpdate.TouchedWrite` | integration/nwo/fabric/network/update.go:188-214 | the write set of such a group likewise |
| `ConfigUpdate.ComputeGroupUpdate` | integration/nwo/fabric/network/update.go:153-215 | the flag is false if and only if the trees are equal at every depth ignoring versions, and the sets are `ReadSet` and `WriteSet` |
| `ConfigUpdate.Compute` | integration/nwo/fabric/network/update.go:217-234 | which error is reported exactly when, "no differences" if and only if the trees are equal ignoring versions, and otherwise the two sets |
| `ConfigApply.ReadSetAccepted` | integration/nwo/fabric/network/update.go:18-215 | every read-set element exists in the original at the same path with the same version |
| `ConfigApply.WriteSetApplied` | integration/nwo/fabric/network/update.go:153-215 | at every depth the write set is well versioned, and applying it gives the updated tree with new, advanced and kept versions in the right places |
| `ConfigApply.ApplyingTheUpdate` | integration/nwo/fabric/network/update.go:153-234 | for every two trees the computed update is accepted, and applying it to the original yields the updated tree except for versions |
| `ConfigApply.AcceptedOnce` | integration/nwo/fabric/network/update.go:217-234 | a computed update is accepted, and once it is installed the same update is rejected |
| `ConfigApply.StampedSame` | integration/nwo/fabric/network/update.go:226-229 | a target with the same content changes nothing, not even a version |
| `ConfigShape.WriteSetIsSmallest` | integration/nwo/fabric/network/update.go:159-201 | any update whatsoever that turns the original into the target names, at every path, all that the computed write set names |
| `ConfigShape.UnchangedNamedIffParentTouched` | integration/nwo/fabric/network/update.go:159-201 | an unchanged policy, value or subgroup, at any path, is in the write set if and only if its parent's mod policy or direct membership changed |
| `ConfigShape.DifferenceIsNamed` | integration/nwo/fabric/network/update.go:116-132 | a group that differs at any depth is in the write set together with its ancestors |
| `ConfigShape.ReadSetInWriteSet` | integration/nwo/fabric/network/update.go:18-215 | the read-set tree embeds in the write-set tree |
| `ConfigShape.WriteSetContents` | integration/nwo/fabric/network/update.go:18-215 | each write-set entry is bare at its original version, or as in the target at the next one or, if new, at 0; each group at its original version has no mod policy and at the next one that of the target; a new group is the whole target at version 0 |
| `ConfigShape.ReadSetContents` | integration/nwo/fabric/network/update.go:18-215 | the read set has, at every path, exactly the entries that the write set has at their original version and exactly the groups that the write set has and the original too, all at their original version, without mod policy and content |
| `ConfigShape.UpdatedVersionsIgnored` | integration/nwo/fabric/network/update.go:26-45 | neither set depends on the versions in the updated tree |
| `ConfigChain.StepReachesTarget` | integration/nwo/fabric/network/update.go:217-234 | after each step the configuration has the content of the target, so computing again reports no differences, and its versions are a function of the two configurations |
| `ConfigChain.StepVersion` | integration/nwo/fabric/network/update.go:40-44 | in one step a surviving group, policy or value advances by one if it changed and otherwise keeps its version |
| `ConfigChain.VersionsCountChanges` | integration/nwo/fabric/network/update.go:203-214 | over any chain of updates, a surviving element has its first version plus the number of steps that changed it, on the 64-bit counter |
| `ConfigChain.VersionsNeverDecrease` | integration/nwo/fabric/network/update.go:85-89 | over any chain of updates, no version of a surviving element decreases, if and only if its counter does not run over |
| `ConfigChain.VersionRunsOver` | integration/nwo/fabric/network/update.go:40-44 | a policy at the highest version whose mod policy changes is accepted at version 0 |
| `OrionKeys.ReplaceComponents` | platform/orion/core/generic/session.go:257-265 | the loop replaces exactly the components that `url.PathEscape` would change, and the flag tells whether there was one |
| `OrionKeys.WriteJoined` | platform/orion/core/generic/session.go:270-276 | the loop writes the components joined by `~` |
| `OrionKeys.SanitizeKey` | platform/orion/core/generic/session.go:255-281 | the stored key: unchanged without such a component, else the components replaced and joined, with a `~` at the end doubled |
| `OrionKeys.SanitizePrefixed` | platform/orion/core/generic/session.go:255-281 | after a first component that needs no escaping, only the rest of the key is changed |
| `OrionKeys.UnchangedIff` | platform/orion/core/generic/session.go:255-281 | a key is stored under itself if and only if no character needs escaping |
| `OrionKeys.StableIff` | platform/orion/core/generic/session.go:255-281 | sanitising twice is sanitising once if and only if no replaced component has a slash in its base64 |
| `OrionKeys.SharedIff` | platform/orion/core/generic/session.go:255-281 | any two keys are stored under one if and only if their components, replaced where needed and with an empty one added for a doubled `~`, are equal |
| `OrionKeys.SharedCases` | platform/orion/core/generic/session.go:255-281 | the same said of the keys: one that needs no escaping shares with a key exactly if it is what that key is stored as; two that need it share exactly if their components are pairwise replaced by the same |
| `OrionKeys.SafeIff` | platform/orion/core/generic/session.go:259-265 | two components are replaced by the same text if and only if they are equal, or one needs escaping and the other is its base64 |
| `OrionKeys.SharedSingleIff` | platform/orion/core/generic/session.go:255-281 | two different keys of one component are stored under one if and only if one needs escaping and the other is its base64 |
| `OrionKeys.SplitJoin` | platform/orion/core/generic/session.go:258-276 | joining components without `~` and splitting again gives them back |
| `Base64Encoding.Base64Injective` | platform/orion/core/generic/session.go:262-262 | different bytes have different texts, in the standard and in the URL-safe alphabet |
| `Base64Encoding.DecodeBase64` | platform/orion/core/generic/session.go:262-262 | a decoder written from the table of section 4 of RFC 4648 inverts the encoding, for all bytes |
| `Base64Encoding.Base64Length` | platform/orion/core/generic/session.go:262-262 | the text has four characters for every three bytes or part of them |
| `Base64Encoding.Base64Padding` | platform/orion/core/generic/session.go:262-262 | exactly the last characters, as many as bytes are missing to a multiple of three, are `=` |
| `Base64Encoding.UrlAlphabet` | integration/orion/cars/states/records.go:32-36 | the URL-safe text has `-` and `_` in place of `+` and `/` and is otherwise the same |
| `OrionKeys.EscapedIff` | platform/orion/core/generic/session.go:260-261 | `url.PathEscape` changes a component if and only if one of its characters needs escaping |
| `OrionKeys.SpecialCharacters` | platform/orion/core/generic/session.go:260-260 | which characters other than letters and digits need escaping |
| `OrionKeys.SharedExample` | platform/orion/core/generic/session.go:255-281 | `a b` and `YSBi` are both stored as `YSBi` |
| `OrionKeys.DoubledSeparator` | platform/orion/core/generic/session.go:277-279 | any component that needs escaping, with one `~` after it, shares its key with its base64 with two `~` after it, unless that has a slash |
| `OrionKeys.DoubledExample` | platform/orion/core/generic/session.go:277-279 | `a b~` and `YSBi~~` are both stored as `YSBi~~` |
| `OrionKeys.UnstableExample` | platform/orion/core/generic/session.go:255-281 | two spaces and a question mark are stored as `ICA/`, which is not stored as itself |
| `CarValidation.BuyerValidate` | integration/orion/cars/views/transfer.go:137-185 | exactly when the buyer's check accepts and exactly when it panics (it gets to the access control and the last write has none), for any envelope |
| `CarValidation.DmvValidate` | integration/orion/cars/views/transfer.go:217-298 | exactly when the DMV's check accepts and exactly when it panics, for any envelope and ledger |
| `CarValidation.BuyerAcceptsMeans` | integration/orion/cars/views/transfer.go:137-185 | for any envelope: the buyer accepts if and only if every write is of a record under a car key, the last car record names the buyer, the last write's access control is that of exactly the buyer and the DMV, and the one signer and the buyer must sign |
| `CarValidation.CoSignedGoesToBuyer` | integration/orion/cars/views/transfer.go:152-159 | for any envelope: if the last write is of a car record, what the buyer accepts makes the buyer its owner and, with the DMV, its only writer |
| `CarValidation.DmvAcceptsMeans` | integration/orion/cars/views/transfer.go:217-298 | for any envelope and ledger: the DMV accepts if and only if it hands a car on from the owner read to the owner written, both of whom must sign and signed, under the same registration, with exactly the new owner and the DMV as writers |
| `CarValidation.VisitWrites` | integration/orion/cars/views/transfer.go:138-151 | the loop fails exactly if some key is no car key or some value is not JSON; else it leaves the owner of the last car record, the registration of the last write and the access control, possibly nil, of the last write |
| `CarValidation.VisitReads` | integration/orion/cars/views/transfer.go:218-233 | the loop fails exactly if some key is no car key or holds no record; else it leaves the owner of the last car record and the registration of the last record |
| `CarValidation.LastOwnerIs` | integration/orion/cars/views/transfer.go:144-146 | the owner is that of the car record after which there is no other |
| `CarValidation.NoOwner` | integration/orion/cars/views/transfer.go:144-146 | without any car record the owner stays empty |
| `CarValidation.DecodeOneMore` | integration/orion/cars/views/transfer.go:227-229 | decoding one more value into the same record gives the owner and registration that the longer list has last |
| `CarValidation.EarlierAclIsIgnored` | integration/orion/cars/views/transfer.go:147-159 | the access control, present or nil, of any write but the last makes no difference to what the buyer and the DMV accept or panic on |
| `CarValidation.Lookup` | integration/orion/cars/views/transfer.go:253-279 | the flags are set exactly for users in the list |
| `CarRecords.CarKeyInjective` | integration/orion/cars/states/records.go:47-49 | cars with different registrations have different keys before sanitising |
| `CarRecords.MintKeyIsNoCarKey` | integration/orion/cars/states/records.go:16-30 | no mint request is stored under a car key |
| `CarRecords.MintKeyStored` | integration/orion/cars/states/records.go:28-36 | a mint request is stored under its own key, whatever the hash |
| `CarRecords.RequestKeyIff` | integration/orion/cars/states/records.go:28-36 | with a hash that tells them apart, two requests share a key if and only if dealer and registration, joined by `_`, read the same |
| `CarRecords.RequestsOfDealers` | integration/orion/cars/states/records.go:28-36 | so dealers without `_` in their names have different keys for different requests |
| `CarRecords.SharedRequestKey` | integration/orion/cars/states/records.go:28-36 | dealer `a_b` asking for `c` and dealer `a` asking for `b_c` share a key, whatever the hash |
| `CarProtocol.KeyBindsContent` | integration/orion/cars/views/mint.go:181-187 | with such a hash the DMV's check of a request lets only the content pass that the key was made for |
| `CarRecords.StoredKeyIs` | platform/orion/core/generic/session.go:31-49 | a car is stored under the car prefix followed by its sanitised registration |
| `CarRecords.SharedKeyIff` | platform/orion/core/generic/session.go:31-49 | two registrations are stored under one key if and only if they sanitise to the same |
| `CarRecords.StableKeyIff` | integration/orion/cars/views/transfer.go:219-224 | giving a stored car key to `Get` again finds the same record if and only if sanitising the registration again changes nothing |
| `CarRecords.TwoWriters` | integration/orion/cars/views/transfer.go:155-159 | the access control check leaves exactly the new owner and the DMV as writers |
| `CarRecords.OnlyWritersIff` | integration/orion/cars/views/transfer.go:155-159 | for an owner other than the DMV, the check accepts one access control only |
| `CarSafety.DmvValidatesKeeps` | integration/orion/cars/views/transfer.go:204-206 | what the DMV saw is no older than what the seller read, belongs to a party that must sign, and has been found under the key the seller read |
| `CarSafety.DmvReadsSameKey` | integration/orion/cars/views/transfer.go:217-298 | although the DMV sanitises the key again, what it accepts is about the record the seller read: any other record has another registration |
| `CarSafety.CommitFacts` | integration/orion/cars/views/transfer.go:208-210 | at a commit the seller's read, the DMV's read and the ledger agree, both parties must sign and did, and the owner is the seller unless it is the buyer already |
| `CarSafety.StagesStep` | integration/orion/cars/views/transfer.go:104-134 | every step keeps the stages of a transfer in order, each at most once |
| `CarSafety.StepKeeps` | integration/orion/cars/views/transfer.go:33-298 | every step of every party keeps the invariant of the whole system, over stored keys |
| `CarSafety.RunKeeps` | integration/orion/cars/views/mint.go:31-178 | every interleaving of mints and transfers keeps the invariant of the whole system, over stored keys |
| `CarTheorems.LedgerIsReplay` | integration/orion/cars/views/transfer.go:42-74 | in every run the car keys hold exactly the cars that replaying a lawful history leaves, each under the key its registration is stored under |
| `CarTheorems.OwnRegistrationIff` | integration/orion/cars/views/transfer.go:42-58 | the key of a registration holds that registration's car if and only if no minted registration sanitises to the same |
| `CarTheorems.PlainKeysHoldTheirOwn` | integration/orion/cars/views/transfer.go:42-58 | with registrations that need no escaping every car key holds its own registration |
| `CarTheorems.NothingVanishes` | integration/orion/cars/views/mint.go:148-169 | however a run goes on, no record vanishes, versions never fall, content changes only with the version and a car keeps its registration |
| `CarTheorems.OwnerChanges` | integration/orion/cars/views/transfer.go:137-298 | any step of any run leaves the car under a key as it is, mints one for a dealer who asked with the access control of a new car, or commits a transfer under that key from a to b that both had to sign and signed, with the registration kept, b and the DMV as the only writers and b not the DMV |
| `CarTheorems.DealNamesTheCarIff` | integration/orion/cars/views/transfer.go:204-210 | a transfer that commits names the registration of the car it hands on if and only if no minted registration sanitises to the same |
| `CarTheorems.CommitsOnlyIfStable` | integration/orion/cars/views/transfer.go:217-233 | in every run a transfer commits only for a registration that sanitising twice changes as sanitising once does |
| `CarTheorems.WhoMayWrite` | integration/orion/cars/views/mint.go:161-166 | in every run a car can be written by the DMV alone and read by its owner, as minted, or, once sold, by its owner and the DMV, who must both sign |
| `CarTheorems.SellerReturnsAfterCommit` | integration/orion/cars/views/transfer.go:76-134 | if the seller's view returns, the buyer co-signed, then the DMV validated, then the transfer committed, in this order in the same run, each once |
| `CarTheorems.AtMostOneCommits` | integration/orion/cars/views/transfer.go:204-214 | two transfers that committed did not read the same version of the same record |
| `CarTheorems.MintedOnce` | integration/orion/cars/views/mint.go:148-154 | no registration is minted twice in a run, and no two are minted under one stored key |
| `CarTheorems.DealerGotTheCar` | integration/orion/cars/views/mint.go:72-96 | if the dealer's view returns, the dealer owned the car at some point of the run |
| `CarSafety.LoadedRequest` | integration/orion/cars/views/mint.go:126-140 | the request the DMV mints from is one that its dealer recorded |
| `CarProgress.BuyerAcceptsIff` | integration/orion/cars/views/transfer.go:60-74 | the buyer accepts what the seller assembles if and only if the buyer is not the DMV |
| `CarProgress.DmvAcceptsIff` | integration/orion/cars/views/transfer.go:217-298 | the DMV accepts the co-signed envelope if and only if the car belongs to one of the parties and sanitising its key again finds it |
| `CarProgress.GoesThroughIff` | integration/orion/cars/views/transfer.go:33-215 | after any run, an undisturbed transfer that the ledger does not refuse for reasons beyond stale reads and signatures completes if and only if its key holds a car of the seller or the buyer, the buyer is not the DMV, and sanitising the registration twice is sanitising it once; the buyer then owns that car |
| `CarProgress.MintGoesThroughIff` | integration/orion/cars/views/mint.go:31-178 | after any run, an undisturbed mint that the ledger does not refuse otherwise completes if and only if there is no such request and nothing under the key of the car; the dealer then owns it |
| `CarProgress.MintRefusals` | integration/orion/cars/views/mint.go:52-154 | on any ledger: where dealer and DMV stop a mint, and exactly when |
| `CarProgress.SharedKeyRun` | integration/orion/cars/views/transfer.go:33-215 | the run in which `a b` is minted, found under the key of `YSBi`, and sold by a transfer that names `YSBi` |
| `CarProgress.UnstableKeyRun` | integration/orion/cars/views/transfer.go:217-233 | the run in which two spaces and a question mark is minted, after which its owner's transfer to whomever does not complete |
| `CarProgress.NeverSold` | integration/orion/cars/views/transfer.go:217-233 | in no run does a transfer of that registration commit |
| `IouViews.Match` | platform/fabric/services/state/identities.go:41-59 | true exactly when the lists are equally long and every passed identity is in the own list |
| `IouViews.MatchIsPermutation` | platform/fabric/services/state/identities.go:39-59 | on a list without duplicates, the promised equality up to positions holds if and only if it matches and the passed list has no duplicates |
| `IouViews.MatchOfDistinct` | platform/fabric/services/state/identities.go:39-59 | whatever the own list, `Match` is the promised equality up to positions for every passed list without duplicates |
| `IouViews.MatchAcceptsDuplicate` | platform/fabric/services/state/identities.go:39-59 | the input on which the promise fails |
| `IouViews.Filter` | platform/fabric/services/state/identities.go:18-26 | keeps exactly the identities that satisfy the test |
| `IouViews.FilterPosition` | platform/fabric/services/state/identities.go:18-26 | each identity that passes ends up right after what those before it leave, so order and multiplicity are kept |
| `IouViews.FilterIdentities` | platform/fabric/services/state/identities.go:18-26 | the loop computes `Filter` |
| `IouViews.LenderThenApproverCreation` | integration/fabric/iou/views/lender.go:36-59 | a creation that the lender accepts is accepted by the approver once the lender endorsed, unless both parties are the same |
| `IouViews.LenderThenApproverUpdate` | integration/fabric/iou/views/lender.go:84-114 | an update with a single command that the lender accepts is accepted by the approver once the lender endorsed |
| `IouViews.BorrowerCreationApproved` | integration/fabric/iou/views/borrower.go:54-68 | the creation that the borrower assembles is approved if and only if the amount is at least 5 and the parties differ |
| `IouViews.BorrowerUpdateApproved` | integration/fabric/iou/views/borrower.go:119-135 | the update that the borrower assembles is approved if and only if it lowers the amount |
| `IouViews.ApproverAcceptsMeans` | integration/fabric/iou/views/approver.go:33-75 | for any transaction: the approver accepts if and only if it is, in the namespace and with a single command, a creation of one IOU of at least 5 with two different owners, all identities of the command among them, or an update that keeps the linear id, lowers the amount and names no new owner, endorsed by the owners |
| `IouViews.LenderAcceptsCreationMeans` | integration/fabric/iou/views/lender.go:36-59 | for any transaction: the lender accepts if and only if it creates one IOU of at least 5 whose owners and command's identities are the two parties, endorsed by the borrower |
| `IouViews.LenderAcceptsUpdateMeans` | integration/fabric/iou/views/lender.go:84-114 | for any transaction: the lender accepts if and only if it updates an IOU of the lender and one other owner who endorsed, keeping the linear id, lowering the amount and naming no new owner |
| `IouViews.BorrowerCreationEndorsed` | integration/fabric/iou/views/borrower.go:54-68 | the lender accepts the creation that the borrower assembles if and only if the amount is at least 5 |
| `IouViews.BorrowerUpdateEndorsed` | integration/fabric/iou/views/borrower.go:119-135 | the lender accepts the update that the borrower assembles if and only if it lowers the amount |
| `IouViews.CommandNamesOwners` | integration/fabric/iou/views/borrower.go:54-60 | the command that the borrower adds names the owners of the output, in their order |
| `IouLedger.EveryRun` | integration/fabric/iou/views/approver.go:33-75 | in every run every creation starts at 5 or more with two different owners, every update replaces the latest state of its linear id with a lower amount and no new owner, and the new owners endorsed before the approver |
| `IouLedger.SingleLineIffFresh` | integration/fabric/iou/views/approver.go:39-52 | in every run each linear id has a single line of states if and only if every commitment was an update or created a new linear id |
| `IouLedger.SingleLineStep` | integration/fabric/iou/views/approver.go:39-52 | a commitment keeps a single line of states per linear id if and only if it is an update or its linear id is new on the ledger before it |
| `IouLedger.OriginIffSameID` | integration/fabric/iou/views/approver.go:39-68 | in such a run the states of a linear id are those that go back to its one creation |
| `IouLedger.CreationCanReuseID` | integration/fabric/iou/views/approver.go:39-52 | the run from the empty ledger in which one linear id is created twice, with 10 and then with 100 |
| `IouLedger.AmountFalls` | integration/fabric/iou/views/approver.go:53-68 | in every run the amount of a state is at most that of the creation it goes back to, less the number of states in between |
| `IouLedger.UpdatesAreBounded` | integration/fabric/iou/views/approver.go:53-68 | in every run an IOU created with amount A has at most A updates |
| `IouLedger.OwnersKeptIffTheyDiffer` | integration/fabric/iou/views/approver.go:65-68 | in every run all updates keep the owners if and only if no committed update listed an owner twice |
| `IouLedger.OwnersKeptStep` | integration/fabric/iou/views/approver.go:65-68 | a commitment keeps the owners if and only if it is a creation or its output lists no owner twice |
| `IouLedger.OwnerCanBeDropped` | integration/fabric/iou/views/approver.go:65-68 | the run from the empty ledger in which an update commits that drops an owner, endorsed by the other and the approver alone |
| `IouLedger.CreationRun` | integration/fabric/iou/views/borrower.go:38-85 | after any run, the creation that the borrower assembles commits for an amount of at least 5 and different parties, and its state has exactly the requested amount and those owners |
| `IouLedger.UpdateRun` | integration/fabric/iou/views/borrower.go:110-146 | after any run, the update that the borrower assembles from the latest state commits if it lowers the amount, and the next state has exactly the requested amount, the same id and owners, and replaces that state |
| `ServiceCache.EveryRun` | platform/fabric/fns.go:57-85 | every interleaving keeps mutual exclusion, the entries' meaning and one wrapper and one service per name |
| `ServiceCache.OneWrapperPerName` | platform/fabric/fns.go:141-175 | in every interleaving at most one wrapper, and one service below it, is ever created per name |
| `ServiceCache.NeverOverwritten` | platform/orion/ons.go:91-123 | in every interleaving entries, wrappers and results are never overwritten later |
| `ServiceCache.CallsAgreeWithDirectory` | platform/fabric/fns.go:141-175 | every successful call returns what a plain map from names to wrappers holds for the name of its id, the empty default id included |
| `ServiceCache.FailsIffAskFailed` | platform/fabric/fns.go:57-85 | in every run a call ends in an error if and only if it asked the provider for a service that was not made yet and that failed |
| `ServiceCache.KnownNameSucceeds` | platform/fabric/fns.go:141-175 | in every run a call for a name whose service or wrapper was made before it began succeeds |
| `ServiceCache.CachedIsFast` | platform/orion/ons.go:91-97 | in every run a call for an id that has an entry returns it without taking the write lock or asking the provider |
| `ServiceCache.DefaultNetworkIsOne` | platform/fabric/fns.go:141-175 | in every interleaving a call with the empty id and one with the default name return the same wrapper |
| `ServiceCache.SomeStepEnabled` | platform/fabric/fns.go:57-73 | no deadlock: while a call is unfinished some call can take a step |
| `ServiceCache.StepsProgress` | platform/fabric/fns.go:57-85 | every step brings its call closer to its end and moves no other call |
| `NetworkProvider.NewFns` | platform/fabric/core/provider.go:154-166 | the service is that of the first driver that makes one; an error if and only if none does |
| `NetworkProvider.Provider.NetworkService` | platform/fabric/core/provider.go:100-118 | the service made for the resolved name, now or before; none exactly if it was not made before and no driver makes it; none is replaced, failures leave no trace, and the call is the provider step of the interleavings |
| `NetworkProvider.IndexGrows` | platform/fabric/fns.go:165-173 | storing a new wrapper under both its id and its name keeps every entry leading to the one wrapper of its name |
| `NetworkProvider.NetworkServices.NetworkService` | platform/orion/ons.go:91-123 | an uninterrupted call returns the one wrapper of the name of its id, fails exactly if the provider has no such service and no driver makes it, makes a wrapper only for a name without, and overwrites no entry |
| `Utf8.DecodeEncode` | pkg/utils/compose/compose.go:80-91 | decoding the encoding of a code point gives it back, whatever follows |
| `Utf8.EncodeDecode` | pkg/utils/compose/compose.go:80-91 | the first bytes of valid text are the encoding of its first code point |
| `Utf8.EncodeOrder` | pkg/utils/compose/compose.go:16-20 | byte order of the encodings is code-point order |
| `CompositeKey.ValidateAttribute` | pkg/utils/compose/compose.go:80-91 | accepts exactly valid UTF-8 without U+0000 and U+10FFFF, and reports the first offending code point and its byte position |
| `CompositeKey.CreateCompositeKey` | pkg/utils/compose/compose.go:23-38 | succeeds exactly on allowed parts, appends their key to the builder, and what stays in the builder on failure |
| `CompositeKey.AppendAttributes` | pkg/utils/compose/compose.go:51-60 | succeeds exactly on allowed attributes, and what is in the builder afterwards in either case |
| `CompositeKey.CreateThenAppend` | pkg/utils/compose/compose.go:23-60 | creating and then appending on one builder is creating with the concatenated list |
| `CompositeKey.DecodeKey` | pkg/utils/compose/compose.go:23-38 | keys decode uniquely to object type and attributes, empty ones included |
| `CompositeKey.RangeIsExtensions` | platform/fabric/services/state/composite.go:35-44 | among composite keys, those from P up to P followed by U+10FFFF are exactly the extensions of P |
| `CompositeKey.CreateTxTopic` | pkg/utils/compose/compose.go:72-78 | the topic is the key of its parts, and it panics exactly on parts that are not allowed |
| `CompositeKey.TopicBytes` | pkg/utils/compose/compose.go:72-78 | the topic byte by byte: namespace, `tx`, network, channel and, if there is one, transaction, each followed by a zero byte |
| `CompositeKey.TopicsDiffer` | pkg/utils/compose/compose.go:72-78 | equal topics come from equal (network, channel, transaction) triples |
| `Imports.Search` | integration/nwo/fsc/node/node.go:249-253 | the binary search splits the sorted imports at the path |
| `Imports.Node.AddImport` | integration/nwo/fsc/node/node.go:249-278 | imports stay strictly sorted and equal to the keys of the alias table, an assigned alias never changes, and a new path gets the next number of its last element |
| `Imports.Node.CountSharing` | integration/nwo/fsc/node/node.go:258-262 | the counter is the number of paths with the last element, in any order of the table |
| `Imports.NextNumber` | integration/nwo/fsc/node/node.go:255-269 | after adding a path, paths that share a last element still have pairwise distinct aliases |
| `Imports.AtoiItoa` | integration/nwo/fsc/node/node.go:263-265 | the digits of a number, read in base ten, give it back, without a leading zero |
| `Imports.NumberedIs` | integration/nwo/fsc/node/node.go:255-269 | the first path with a last element has it as its alias, and number n has the digits of n after it |
| `Imports.LastElementOf` | integration/nwo/fsc/node/node.go:255-256 | the last element is what follows the last slash |
| `Imports.StaysDistinct` | integration/nwo/fsc/node/node.go:255-269 | all aliases stay distinct if and only if the candidate is not the alias of a path with another last element |
| `Imports.AliasesMayClash` | integration/nwo/fsc/node/node.go:255-269 | three imports in a row whose second and third aliases coincide |
| `Imports.ClashingImports` | integration/nwo/fsc/node/node.go:255-269 | such imports exist |

## Left out

- Installing a configuration update: the repository has no such function. `ConfigApply.Apply` follows the
  Hyperledger Fabric documentation, "Channel Configuration (configtx)", section "Configuration updates".
  Signatures and policies that authorise an update are not modelled.
- Nil entries in the maps of a configuration; a nil policy message is modelled.
- `computePoliciesMapUpdate` and `computeValuesMapUpdate` are one generic method, since they differ only in the
  content. Two loops in one Go function became two methods, and ghost parameters carry the enclosing group.
- Orion's own checks at commit other than stale reads and missing signatures; as the ledger may refuse any
  commit in the model, they only remove runs, which leaves what holds in every run. That a mint or a transfer
  goes through is stated for a ledger that does not refuse on such grounds.
- A view that fails, panics or times out may stop at any step.
- Transactions not built by the car views, and readings of the same key twice in one validation.
- The request-id hash is any function; no injectivity is needed. JSON is not modelled, except that decoding a
  record of the other kind leaves missing fields as they were. Registrations and users are valid UTF-8, as
  JSON input is.
- `NewNodeFromTemplate`, which copies imports with an empty alias table, so that the invariant of `Imports.Node`
  does not hold of its result.
- IOU transactions that write a state under a key other than its linear id; the state API does not build them.
- How a driver makes a service: a service answers to the name it was made for, and resolving a name again gives
  that name. Under interleaving the lock and the map of a cache are steps over a state, not a class.
- The process runner, the port allocator and the private-chaincode topology: their invariants are simpler than
  those above.
- Everything that starts processes, generates files, builds images or talks to a network; the vault and the
  committer; certificates and signatures; tracing.
