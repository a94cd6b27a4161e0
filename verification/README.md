# A verified model of the Fabric snapshot import

This project models the tool that imports Hyperledger Fabric channel snapshots into a Fabric-X
database, and proves what the tool promises. It has three parts.

**Endorsement policies** (`internal/migrate/config.go`). Fabric's implicit-meta policies let every
subpolicy see all endorsing identities; the signature policies stored by the importer consume
identities in rule order. The importer rewrites the first kind into the second. `SignaturePolicy`
gives the consuming evaluation, `CanonicalPolicy` and `ImplicitMeta` the rewriting as functions on
values, `RuleHeap` and `ImplicitMetaHeap` the same rewriting in place on mutable rule objects,
proved equal to the value form. The main theorem is `ImplicitMeta.ConversionSound`: a conversion
that succeeds accepts exactly the identity lists of the channel policy, for every nesting.
`ConversionExact` says exactly when a conversion succeeds, and what it gives. `PolicyOrder` shows
that the result does not depend on the order of subpolicies, `ResolvePolicy` carries both results to
the table of stored policies, `Limits` has the counterexamples that explain why the code refuses what
it refuses, and `ReuseMsps` covers the organizations of the target.

**Snapshot files** (`internal/fabricsnapshot`). `Varint`, `Snapshot`, `Base64` and `Stream` are the
binary decoder: loops over a byte slice or a stateful reader, proved equal to recursive functions.
`StreamTheorems` has the theorems about those: round trips against the encoders, no repeated key,
exactly the announced number of records, and full consumption. `Acceptance` states which files are
accepted without mentioning the walk (`Acceptance.WalkExact`), and `Opening` does so for the opened
snapshot and its two streams.

**The import run** (`internal/migrate/import.go`, `inputs.go`). `Mappings`, `Counts` and `Routing`
send each record to its target and show that the counts taken from metadata are the numbers of
records routed (`Routing.Conservation`). `RoutedRows` says which records become rows, with which key
and value, and carries that to the filled tables. `Collisions` says when no two records can meet in one row.
`Batch` shows that batched insertion is one-at-a-time insertion, `Import.Run` states exactly when an
import succeeds and what it then leaves, and `Concurrency` runs any number of imports against one
database, one statement at a time. `StoredPolicies` joins the first part to this one: the row stored
for a target accepts what its source policies accept.

`Prelude` holds results, byte order and sorting.

## How the model is set up

- An endorsing identity is its MSP and an arbitrary set of principals it satisfies, with two facts
  assumed (`Genuine`): a ROLE principal is satisfied only inside its MSP, and a peer of an MSP
  satisfies the member principal of that MSP. Other principals are arbitrary. The evaluation rules
  are those of README.md:162-193 and internal/migrate/config_test.go:143-182 and 309-343.
- `Convert` of an implicit-meta policy is a relation, `IsConversion`: one N-of over the converted
  subpolicies, with any list of identities that holds their principals. All theorems hold for every
  envelope in that relation, so they do not depend on how identity lists are merged.
- Deterministic marshalling is a pair of functions to bytes that tell apart principals other than nil
  and rules without malformed nodes (`Wire`, `Faithful`). Stored policies are compared as values,
  which is the same for such an encoding.
- Methods follow the loops and field updates of the Go code. Each one's contract ties the outcome,
  with its error, to a function on values, and the lemmas are about that function.
- `hide` statements keep definitions away from proofs that do not need them; they change no claim.

## What turned out not to hold in general

- Consuming evaluation is neither monotone in the identity list nor independent of rule order
  (`Limits.MoreSignersCanReject`, `Limits.ExplicitOrderMatters`). Reordering is sound where the
  code does it, between independent branches (`SignaturePolicy.IndependentReorder`).
- Conversion is not complete: it refuses some policies that have an equivalent signature policy
  (`Limits.ConversionIncomplete`). It succeeds exactly under the condition of
  `ConversionExact.ConversionExact`. With nested boundaries that condition depends on the byte order
  of rules: a boundary and an explicit rule can be duplicates of each other only once the boundary
  is sorted. Principals that no rule uses any more stay in the envelope.
- The closing count check compares 64-bit sums with a row count, so it can fail although every row
  was inserted, exactly when some target is sent 2^64 records or more (`Import.CloseCheckOutcome`).
- An import whose records collide is refused by the database, not by the mapping check: two sources
  may share a target. `Import.Run` has the exact condition, `Collisions.SeparateNoCollision` a
  condition on the mapping that rules it out.

## Model

| member | source | states |
|---|---|---|
| `SignaturePolicy.FirstUnused` | README.md:187-189 | a leaf finds the first unused identity that satisfies its principal |
| `SignaturePolicy.EvalFrame` | internal/migrate/config.go:353-355 | a rule whose leaves lie in a set of MSPs marks only identities of those MSPs, and its verdict and marks depend on the marks of those identities alone |
| `SignaturePolicy.EvalAllFrame` | internal/migrate/config.go:353-355 | the same for the branches of a rule evaluated one after the other |
| `SignaturePolicy.IndependentCount` | internal/migrate/config.go:353-358 | for independent branches, the number that succeed while consuming identities is the number that accept from clear marks |
| `SignaturePolicy.IndependentMeaning` | internal/migrate/config.go:232-261 | independence is: every leaf is a ROLE principal with an MSP, and no MSP occurs in two branches |
| `SignaturePolicy.LeavesExact` | internal/migrate/config.go:232-254 | what independence reads off a rule depends on its leaves alone: that each is a ROLE principal with an MSP, and which MSPs they name |
| `SignaturePolicy.BranchesPermute` | internal/migrate/config.go:353-363 | independence and the count of accepting branches do not depend on branch order |
| `SignaturePolicy.IndependentReorder` | internal/migrate/config.go:353-363 | independent branches in any order give the same verdict, and it is the count against the threshold |
| `CanonicalPolicy.DistinctPrincipalsSorted` | internal/migrate/config.go:195-200 | the principals are strictly sorted by their bytes and none is lost or invented |
| `CanonicalPolicy.ValidExact` | internal/migrate/config.go:182-222 | a policy is valid when no principal is nil and every node of its rule is a leaf with a known principal or a threshold between 0 and the number of its rules |
| `CanonicalPolicy.CanonicalPreserves` | internal/migrate/config.go:180-230 | succeeds exactly on policies without nil principals, with indexes in range and thresholds between 0 and the number of rules; version, principals and substituted tree are kept |
| `CanonicalPolicy.CanonicalKeepsEvaluation` | internal/migrate/config.go:178-230 | verdict and final marks are unchanged for every identity list and every initial marking |
| `CanonicalPolicy.CompileInjective` | internal/migrate/config.go:201-225 | without repeated principals, a rule is determined by its tree of principals |
| `CanonicalPolicy.CanonicalComplete` | internal/migrate/config.go:180-230 | two valid policies get the same canonical form if and only if version, principal set and substituted tree agree |
| `CanonicalPolicy.CanonicalIdempotent` | internal/migrate/config.go:180-230 | canonicalizing twice is canonicalizing once |
| `RuleHeap.CloneRule` | internal/migrate/config.go:181 | the copy is fresh, equal in value, and shares no node even when the original does |
| `RuleHeap.CollectPrincipals` | internal/migrate/config.go:182-194 | reads the byte key of every principal, refuses a nil one |
| `RuleHeap.PlacePrincipals` | internal/migrate/config.go:195-200 | places one principal for each key, in key order, and records its position |
| `RuleHeap.IndexPrincipals` | internal/migrate/config.go:182-200 | the two loops together compute the distinct sorted principals and the position of every old index |
| `RuleHeap.ReindexRule` | internal/migrate/config.go:201-225 | the in-place walk rewrites every leaf of an unshared tree once, keeps its shape and footprint, and reports the first error in rule order |
| `RuleHeap.ReindexChildren` | internal/migrate/config.go:216-220 | the loop over the children, with the same guarantees |
| `RuleHeap.MakeCanonical` | internal/migrate/config.go:180-230 | canonicalPolicy on rule objects returns the value form, and the caller's rules, possibly shared, are not in its frame |
| `ImplicitMeta.ConvertibleExact` | internal/migrate/config.go:275-282 | a channel policy has a signature form when every signature policy in it, at any depth, is loaded, and no part is of another kind |
| `ImplicitMeta.SingleRoleExact` | internal/migrate/config.go:373-387 | the role found is that of a ROLE leaf inside any number of 1-of-1 rules, and there is none for any other rule |
| `ImplicitMetaHeap.SinglePolicyRole` | internal/migrate/config.go:373-387 | the unwrapping loop finds the role of a leaf inside any number of 1-of-1 wrappers, and none for any other rule |
| `ImplicitMeta.PeerImpliesAlone` | internal/migrate/config.go:367-371 | when the peer branch accepts an identity list, the member branch of that MSP accepts it |
| `ImplicitMeta.PeerImpliesExact` | internal/migrate/config.go:367-371 | holds exactly when the two rules are leaves for the peers and for the members of one named MSP, inside any number of 1-of-1 rules, whatever else the payloads hold |
| `ImplicitMetaHeap.PeerImplies` | internal/migrate/config.go:367-371 | the two unwrapping loops and the comparison answer yes exactly for such a pair of rules |
| `ImplicitMetaHeap.IsRedundant` | internal/migrate/config.go:333-339 | the inner loop finds exactly whether an earlier branch is equal or, under ALL, some branch is a peer that implies this member |
| `ImplicitMeta.MergeMeaning` | internal/migrate/config.go:329-346 | the kept branches have no duplicates and are exactly the given ones without members implied by a peer |
| `ImplicitMeta.MergeJustified` | internal/migrate/config.go:329-343 | every dropped branch is equal to a kept one, or implied by a peer that is itself kept |
| `ImplicitMeta.MergeSound` | internal/migrate/config.go:325-347 | ALL of the kept branches, and ANY of them, accept from clear marks exactly what ALL and ANY of the given branches accept |
| `ImplicitMetaHeap.MergeBranches` | internal/migrate/config.go:329-344 | the merge loop on rule objects keeps exactly those branches, in order, without copying or sharing a node |
| `ImplicitMetaHeap.BranchOwners.Visit` | internal/migrate/config.go:233-254 | accepts a branch exactly when all its leaves are ROLE principals whose MSPs no other branch owns, and then records them |
| `ImplicitMetaHeap.IndependentRules` | internal/migrate/config.go:232-261 | true exactly for independent branches |
| `ImplicitMetaHeap.SortRules` | internal/migrate/config.go:359-363 | the boundary is sorted by the bytes of its rules |
| `ImplicitMeta.CloseBoundarySound` | internal/migrate/config.go:353-364 | a closed boundary accepts when at least N of its branches accept from clear marks |
| `ImplicitMeta.FinishSound` | internal/migrate/config.go:325-364 | merging, collapsing a single branch and closing the boundary together keep what the boundary accepts from clear marks |
| `ImplicitMeta.NormalizeSound` | internal/migrate/config.go:310-365 | normalizing an implicit-meta policy of any nesting turns the converted rule into one that accepts exactly the identity lists of the channel policy |
| `ImplicitMeta.ConversionSound` | internal/migrate/config.go:289-302 | whenever conversion of any implicit-meta policy succeeds, the stored rule accepts exactly the identity lists the channel policy accepts, however the conversion merged the principals |
| `ConversionExact.FinishExact` | internal/migrate/config.go:329-364 | a boundary ends well exactly when, under ALL or ANY, one branch is left after merging or the branches left are separate, and otherwise when all branches are; it then becomes that one branch, or the kept ones in byte order with the adjusted threshold |
| `ConversionExact.PeerBesideExact` | internal/migrate/config.go:367-371 | the pair that merging looks for is a peer leaf and a member leaf of one named MSP, each inside any number of 1-of-1 rules |
| `ConversionExact.NormalizeExact` | internal/migrate/config.go:310-365 | normalizing succeeds exactly when every boundary can be closed once those below it are, and gives the policy with its boundaries closed |
| `ConversionExact.ConversionExact` | internal/migrate/config.go:289-302 | a channel policy of any nesting is converted if and only if it names no nil principal, its thresholds are in range and every boundary can be closed; the stored rule is the closed policy over the sorted principals |
| `ConversionExact.FlatExact` | internal/migrate/config.go:310-365 | for signature subpolicies the condition is about the source trees themselves, whatever the byte order |
| `ConversionExact.DuplicatesCollapse` | README.md:170-171 | ALL and ANY of equal policies of any nesting convert exactly when the policy does, and to the same rule |
| `ConversionExact.DuplicatesConvert` | README.md:170-171 | and the stored envelope is the one the policy itself would give, or both fail |
| `ConversionExact.PeerCoversMember` | README.md:172 | at any boundary, whatever the subpolicies come to: when one becomes a peer leaf and the other a member leaf of the same MSP, wrapped or not, ALL of both, in either order, becomes what the peer did |
| `ConversionExact.PeerMergesMember` | README.md:172 | ALL of a signature policy for the peers of an MSP and one for its members is always converted, in either order, wrapped or not and whatever the payloads hold, and stores the peer |
| `ConversionExact.PeerLeafMergesMember` | README.md:172 | the plain case of two leaves: what is stored is the peer leaf |
| `ConversionExact.DisjointConverts` | internal/migrate/config.go:353-364 | a policy whose subpolicies use ROLE principals of different MSPs at every boundary is always converted, given thresholds in range |
| `ImplicitMetaHeap.MergeRule` | internal/migrate/config.go:329-347 | the rule object holds the merged branches and, under ALL, their number as threshold |
| `ImplicitMetaHeap.Collapse` | internal/migrate/config.go:348-351 | a rule with one branch takes over what that branch holds |
| `ImplicitMetaHeap.CloseRule` | internal/migrate/config.go:356-364 | refuses dependent branches and sorts the others in the rule object |
| `ImplicitMetaHeap.FinishRule` | internal/migrate/config.go:329-364 | the part after the recursion leaves in the rule object what the value form computes, with its error |
| `ImplicitMetaHeap.NormalizeRule` | internal/migrate/config.go:310-365 | the recursive in-place rewriting leaves in the rule object what the value form computes, with its error, and its footprint does not grow |
| `ImplicitMetaHeap.ResolveReference` | internal/migrate/config.go:290-306 | clone, canonicalize, unmarshal and normalize on objects give the value form; the channel's own policy is not in the frame |
| `PolicyOrder.FinishPermuted` | internal/migrate/config.go:329-364 | a boundary ends the same way, or fails both ways, for every order of its branches |
| `PolicyOrder.AnyOrderShuffled` | internal/migrate/config.go:353-363 | every permutation of subpolicies, themselves reordered inside, is one of the reorderings that these results are about |
| `PolicyOrder.NormalizeShuffled` | internal/migrate/config.go:310-365 | reordering subpolicies at every boundary gives the same rule, or fails both ways |
| `PolicyOrder.ConversionOrderIrrelevant` | internal/migrate/config.go:353-363 | reordered subpolicies, at any depth, give the identical envelope or fail both ways, whatever order their principals were merged in |
| `ResolvePolicy.ConvertIsConversion` | internal/migrate/config.go:280 | the conversion that concatenates identity lists is one of the conversions the theorems quantify over |
| `ResolvePolicy.MergeOrderIrrelevant` | internal/migrate/config.go:280-306 | the stored envelope does not depend on how the conversion ordered or repeated principals |
| `ResolvePolicy.ResolveSound` | internal/migrate/config.go:263-308 | an inline policy or a channel reference that resolves accepts exactly what the source channel accepts |
| `ResolvePolicy.ResolveInline` | internal/migrate/config.go:263-293 | an inline policy resolves exactly when no principal is nil and every rule is sound, to the same version, the same principals in strict byte order and the same tree |
| `ResolvePolicy.ResolveNamed` | internal/migrate/config.go:269-308 | a reference resolves exactly when the channel has the policy, it has a signature form, and the condition of ConversionExact holds, to the closed form over the principals in byte order |
| `ResolvePolicy.ResolveNothing` | internal/migrate/config.go:284-289 | an application policy that is not set, or an inline one that is nil, is refused |
| `ResolvePolicy.PolicyTable.Add` | internal/migrate/config.go:499-512 | stores the resolved policy, or reports resolution failure, a conflict or the verifier's refusal and leaves the table as it was |
| `ResolvePolicy.AddAllMeaning` | internal/migrate/config.go:499-512 | all calls succeed exactly when each policy resolves and verifies and sources of one namespace agree; the table then holds just their policies |
| `ResolvePolicy.AddOrderIrrelevant` | internal/migrate/config.go:513-582 | success and the resulting table do not depend on the order of the calls |
| `ResolvePolicy.StoredPolicySound` | internal/migrate/config.go:499-512 | the stored policy of a namespace accepts exactly what each of its source policies accepts |
| `Limits.ExplicitOrderMatters` | internal/migrate/config_test.go:159-160 | swapping two branches of one MSP in an explicit rule changes what is accepted |
| `Limits.MoreSignersCanReject` | README.md:187-189 | one more endorsement can make a consuming rule reject |
| `Limits.DuplicatesCounted` | README.md:190-193 | implicit 2-of(P, P, Q) accepts exactly what P accepts |
| `Limits.ConversionIncomplete` | internal/migrate/config_test.go:309-317 | 2-of(P, P, Q) is refused though P is equivalent to it: the conversion is sound, not complete |
| `ReuseMsps.ChannelConfig.IndexTarget` | internal/migrate/config.go:130-141 | indexes the target exactly when every organization has a usable MSP and no ID occurs twice |
| `ReuseMsps.PublicExact` | internal/migrate/config.go:96-126 | a usable MSP is one of either type with an ID and without a signing identity, and its ID is that one |
| `ReuseMsps.ChannelConfig.ReuseGroup` | internal/migrate/config.go:145-163 | reuses an equal MSP, refuses a different one of the same ID or a taken name, and otherwise adds the group; the two indexes stay in step |
| `ReuseMsps.ChannelConfig.ReuseChannel` | internal/migrate/config.go:143-165 | goes through the organizations of a channel by name and stops at the first error |
| `ReuseMsps.ChannelConfig.ReuseMsps` | internal/migrate/config.go:129-167 | the exact outcome, error included, is that of taking the source organizations in name order; existing organizations never change; on success IDs are unique and every source MSP is there with an equal definition; if all were there nothing changes |
| `ReuseMsps.ReuseAllExact` | internal/migrate/config.go:129-167 | a run succeeds if and only if all MSPs are public, an ID has one definition, and each MSP that is new comes under a name that neither the target nor an earlier new MSP has |
| `ReuseMsps.CompatibleSucceeds` | internal/migrate/config.go:142-166 | public source MSPs with one definition for each ID and one ID for each name are never refused |
| `ReuseMsps.ReuseTwice` | internal/migrate/config.go:129-167 | after a success, a second run with the same sources succeeds and changes nothing |
| `Prelude.SortedKeys` | internal/migrate/config.go:169-176 | the keys of a map, each once, in strictly ascending order |
| `Prelude.LessExact` | internal/fabricsnapshot/stream.go:157-161 | the byte order that sorted names and keys follow: a proper prefix is smaller, otherwise the first byte that differs decides |
| `Varint.Uvarint` | internal/fabricsnapshot/snapshot.go:113-122 | a decoded varint takes at most ten bytes, is in bounds and below 2^64 |
| `Varint.UvarintRoundTrip` | internal/fabricsnapshot/snapshot.go:113-122 | every 64-bit value survives encoding and decoding, wherever it stands |
| `Varint.UvarintExact` | internal/fabricsnapshot/snapshot.go:113-122 | accepted are exactly the varints, minimal or not, of at most ten bytes and 64 bits, with the value of their 7-bit groups |
| `Snapshot.ConsumeUvarint` | internal/fabricsnapshot/snapshot.go:113-122 | stays in bounds and moves forward |
| `Snapshot.Sized` | internal/fabricsnapshot/snapshot.go:101-111 | stays in bounds, moves past its prefix and what it returns, and returns the bytes just before the new position |
| `Snapshot.SizedExact` | internal/fabricsnapshot/snapshot.go:101-111 | accepted are exactly a varint and as many bytes as it says |
| `Snapshot.SizedRoundTrip` | internal/fabricsnapshot/snapshot_test.go:71-74 | decoding inverts the length prefix |
| `Snapshot.DecodeNamespacesLoop` | internal/fabricsnapshot/snapshot.go:17-46 | the loop terminates, stays in bounds and computes the decoder's value with its first error |
| `Snapshot.GuardRejectsNothing` | internal/fabricsnapshot/snapshot.go:25-27 | the count guard rejects no input that decodes without it |
| `Snapshot.NamespacesRoundTrip` | internal/fabricsnapshot/snapshot.go:17-46 | decodes the encoding of every list, up to the limits of 64-bit varints |
| `Snapshot.ProtobufBytes` | internal/fabricsnapshot/snapshot.go:48-70 | the loop over tagged fields computes the decoder's value with its first error |
| `Snapshot.AddFieldsMeaning` | internal/fabricsnapshot/snapshot.go:57-67 | fields can be recorded exactly when none repeats, and then the map holds just those |
| `Snapshot.FieldsRoundTrip` | internal/fabricsnapshot/snapshot.go:48-70 | encoded fields 1 to 4 in any order decode to a map with just those values, and a repeat is refused |
| `Snapshot.FieldOrderIrrelevant` | internal/fabricsnapshot/snapshot.go:48-70 | distinct fields in any order decode to the same map |
| `Snapshot.LeadingZeros` | internal/fabricsnapshot/snapshot.go:96-98 | padding on the left does not change a big-endian number |
| `Snapshot.ReadOrderPreservingUint` | internal/fabricsnapshot/snapshot.go:87-99 | the 8-byte buffer holds the big-endian value of the stated bytes, below 2^64 |
| `Snapshot.UintExact` | internal/fabricsnapshot/snapshot.go:87-99 | accepted are exactly a varint of at most 8 and that many bytes, read as a big-endian number |
| `Snapshot.HeightRoundTrip` | internal/fabricsnapshot/snapshot.go:72-85 | decodes the order-preserving encoding of every pair of 64-bit numbers |
| `Snapshot.UintOrder` | internal/fabricsnapshot/snapshot.go:87-99 | the encodings of two numbers compare as the numbers do |
| `Base64.EncodeInjective` | internal/fabricsnapshot/stream.go:243-246 | the Base64 text of section 4 of RFC 4648 determines the bytes |
| `Base64.DigitAlphabet` | internal/fabricsnapshot/stream.go:243-246 | the digits are those of table 1 of RFC 4648 and the padding is the equals sign |
| `Base64.EncodeThree` | internal/fabricsnapshot/stream.go:243-246 | three bytes become the four digits of their 24-bit number, and the rest follows |
| `Base64.EncodeTwo` | internal/fabricsnapshot/stream.go:243-246 | two bytes left over become three digits and one padding character |
| `Base64.EncodeOne` | internal/fabricsnapshot/stream.go:243-246 | one byte left over becomes two digits and two padding characters |
| `Stream.ReadNamespacesLoop` | internal/fabricsnapshot/stream.go:153-162 | decodes the metadata and accepts exactly lists whose names ascend strictly in the order of Prelude.LessExact |
| `Stream.Reader.ReadUvarint` | internal/fabricsnapshot/stream.go:281 | the byte-by-byte reader agrees with the decoder on value and position |
| `Stream.Reader.ReadSizedBytes` | internal/fabricsnapshot/stream.go:280-294 | returns the next record and advances past it, or fails as the value form does |
| `Stream.ReadSizedExact` | internal/fabricsnapshot/stream.go:280-294 | the next record is exactly a varint within the range of int and as many bytes as it says |
| `Stream.CheckRawRecord` | internal/fabricsnapshot/stream.go:229-260 | the checks of one record, in their order |
| `Stream.WalkNamespaceLoop` | internal/fabricsnapshot/stream.go:223-266 | the inner loop yields the records of one namespace up to its first error |
| `Stream.WalkFileLoop` | internal/fabricsnapshot/stream.go:202-278 | the nested loops over a stateful reader yield what the recursive walk yields and end with the same error |
| `StreamTheorems.WalkRecordsOrdered` | internal/fabricsnapshot/stream.go:222-266 | within a namespace the order keys ascend strictly, and a good end means every announced record was yielded |
| `StreamTheorems.WalkNeverRepeats` | internal/fabricsnapshot/stream.go:157-161 | no walk, with either database, yields a namespace and key twice |
| `StreamTheorems.CouchOrderTotal` | internal/fabricsnapshot/stream.go:243-250 | the CouchDB order decides between any two different hash keys |
| `StreamTheorems.WalkConserves` | internal/fabricsnapshot/stream.go:222-267 | after a successful walk, the records of any selection of namespaces are as many as the metadata announces |
| `StreamTheorems.TrailingBytesRejected` | internal/fabricsnapshot/stream.go:268-273 | success means full consumption: any byte appended to an accepted file makes the walk fail |
| `StreamTheorems.CheckEncodedRecord` | internal/migrate/config_test.go:451-456 | the encoding of a record passes the checks and decodes to it |
| `StreamTheorems.WalkRoundTrip` | internal/fabricsnapshot/stream.go:202-294 | the encoding of every ordered logical snapshot at or below the checkpoint is accepted and yields exactly its records in order |
| `Acceptance.FieldsExact` | internal/fabricsnapshot/snapshot.go:48-70 | accepts exactly length-delimited fields with distinct numbers from 1 to 4, and the map holds just their values |
| `Acceptance.NamespacesExact` | internal/fabricsnapshot/snapshot.go:17-46 | metadata decodes to a list exactly when its bytes are the number of entries, the entries and nothing else |
| `Acceptance.HeightExact` | internal/fabricsnapshot/snapshot.go:72-85 | a height decodes exactly from the bytes of its two numbers and nothing else |
| `Acceptance.HeldExact` | internal/fabricsnapshot/stream.go:229-242 | which bytes hold a record: distinct known fields, among them its key and a version that decodes to its height, and its value and metadata when it has them |
| `Acceptance.TrailingMetadataRejected` | internal/fabricsnapshot/snapshot.go:42-44 | metadata that decodes stops decoding when anything is appended |
| `Acceptance.TrailingHeightRejected` | internal/fabricsnapshot/snapshot.go:81-83 | a height that decodes stops decoding when anything is appended |
| `Acceptance.CheckExact` | internal/fabricsnapshot/stream.go:229-260 | a record is accepted exactly when its bytes hold one with a key, at or before the checkpoint, after the previous key, and of hash lengths in a hash stream |
| `Acceptance.WalkExact` | internal/fabricsnapshot/stream.go:202-278 | the walk accepts a pair of files if and only if they contain, with nothing after it, a snapshot whose names and keys ascend, a proper prefix before the longer string, with allowed heights and hash lengths; it then yields that snapshot's records in order |
| `Opening.OpenExact` | internal/fabricsnapshot/stream.go:117-132 | a snapshot opens exactly when its public metadata announces ascending namespaces, and so does that of private hashes when there is any, with names that are collections |
| `Opening.PublicWalkExact` | internal/fabricsnapshot/stream.go:191-193 | the public walk accepts and yields what the public files contain, checked for the snapshot's own database and checkpoint |
| `Opening.HashWalkExact` | internal/fabricsnapshot/stream.go:195-200 | the walk over private hashes likewise, and without hash files it yields nothing |
| `Mappings.SplitSound` | internal/fabricsnapshot/stream.go:136-142 | an accepted name is a namespace without the mark, the mark, and a collection without "$$" |
| `Mappings.SplitRoundTrip` | internal/fabricsnapshot/stream.go:136-142 | such a name is split back into its parts |
| `Mappings.ValidSourceExact` | internal/migrate/inputs.go:92-94 | a source may be mapped when channel and namespace are not empty and the namespace does not start with an underscore, contain "$$" or name lscc, cscc or qscc |
| `Mappings.UsableExact` | internal/migrate/inputs.go:82-103 | a mapping file is usable exactly when it names the network, has mappings, gives each source once, and all sources and targets may be mapped |
| `Mappings.AscendingExact` | internal/migrate/inputs.go:104-110 | ascending is by channel and then by namespace, in byte order |
| `Mappings.ReadMappings` | internal/migrate/inputs.go:82-111 | accepts exactly valid mappings with distinct sources, and returns them in ascending source order |
| `Mappings.SortMappingsAscending` | internal/migrate/inputs.go:104-110 | sorting distinct sources makes them strictly ascending |
| `Mappings.MappingFor` | internal/migrate/inputs.go:131-138 | finds the first mapping of the source, and none exactly when there is none |
| `Mappings.FindMapping` | internal/migrate/inputs.go:131-138 | the loop returns the first mapping of the source |
| `Counts.AddSelected` | internal/migrate/inputs.go:147-164 | one pass over a stream's namespaces adds the announced records of one source to its target, modulo 2^64 |
| `Counts.SourceOfExact` | internal/migrate/inputs.go:149-164 | a name belongs to a source namespace when it is that namespace in public state, or a collection of it in private hashes |
| `Counts.FoundExact` | internal/migrate/inputs.go:147-167 | a mapping is found by a public namespace or by one collection of its source; either will do |
| `Counts.TargetedExact` | internal/migrate/inputs.go:124-129 | a target has an entry exactly when it is the public target of a mapping, or the hash target, or the public one when no hash target is named, of a mapping with a collection |
| `Counts.CountMapping` | internal/migrate/inputs.go:142-168 | the loop body adds what one mapping announces, from public and hash streams |
| `Counts.MappingCounts` | internal/migrate/inputs.go:140-170 | succeeds exactly when every mapping has its channel, sound hash names and a namespace; the table holds each target's total modulo 2^64, with entries for exactly the targets that may receive records |
| `Routing.RouteStreamLoop` | internal/migrate/import.go:123-150 | the callbacks send each record to the target of its mapping, skip unmapped ones and refuse key-level metadata |
| `RoutedRows.RouteRecordExact` | internal/migrate/import.go:123-150 | a record whose namespace is mapped becomes one row with its key, its value or empty bytes, in the target of the mapping; it is refused for key-level metadata; any other record becomes no row |
| `RoutedRows.RouteStreamExact` | internal/migrate/import.go:123-150 | a stream is refused for a mapped record with key-level metadata, then for the walk's own error; otherwise its rows are those of its mapped records, one for each and in order |
| `RoutedRows.RouteAllExact` | internal/migrate/import.go:120-153 | the same for all streams of all channels: routing succeeds exactly when every walk ends well and no mapped record has key-level metadata, and the rows are one for each mapped record in the order of the walks |
| `RoutedRows.RoutedHeld` | internal/migrate/import.go:216-242 | tables filled with the routed rows hold each mapped record under its key with its value at version 0, and no other row |
| `Routing.WalkSources` | internal/migrate/import.go:120-153 | goes through the channels in ascending order, public records before hashes, up to the first error |
| `Routing.StreamConserves` | internal/migrate/import.go:123-150 | of one stream, as many records go to a target as its mappings announce |
| `Routing.Conservation` | internal/migrate/inputs.go:140-170 | for every target, as many records are routed from all streams of all channels as the metadata announces |
| `Collisions.StreamNoCollision` | internal/migrate/import.go:123-150 | one stream routed to separate targets never repeats a target and key |
| `Collisions.SeparateNoCollision` | internal/migrate/import.go:120-153 | when distinct source namespaces go to distinct targets, no two routed records of any channels share a target and key |
| `Batch.StateBatch.Flush` | internal/migrate/import.go:306-322 | inserts the whole batch and empties it, or fails exactly when a row cannot be inserted |
| `Batch.StateBatch.Add` | internal/migrate/import.go:221-236 | flushes on a change of target and at 512 rows; a batch holds one target and fewer than 512 rows afterwards, and flushed and pending rows are the old ones and the new one |
| `Batch.InsertRouted` | internal/migrate/import.go:216-242 | batched insertion succeeds exactly when one-at-a-time insertion does, with the same tables |
| `Batch.InsertAllMeaning` | internal/migrate/import.go:306-322 | insertion succeeds exactly when every row has a table, no key is there yet and no two rows collide; each table then has just its rows added, at version 0 |
| `Batch.RowsForSize` | internal/migrate/import.go:243-250 | without collisions a target gains as many rows as were routed to it |
| `Import.EnsureEntry` | internal/migrate/import.go:263-293 | succeeds exactly when the value is not empty and the key is absent, or holds it at version 0, or holds an equivalent channel configuration at version 0; the row is then the value at version 0 and nothing else changes |
| `Import.EnsuredRowExact` | internal/migrate/import.go:263-293 | an entry is refused when the value is empty, and when the stored row has another version or another value that is not an equivalent channel configuration; otherwise the row is the value at version 0 |
| `Import.ReadyExact` | internal/migrate/import.go:188-215 | ready means: the target is empty or absent, has a policy, and no other policy or version is stored for it; a configuration is given, and the one stored, if any, is at version 0 and the same or equivalent |
| `Import.Prepare` | internal/migrate/import.go:188-215 | system tables, configuration row, then for each target an empty table and its policy, up to the first error |
| `Import.PrepareTargetsMeaning` | internal/migrate/import.go:201-215 | every target ends up there and empty with its policy stored, no other application table changes, and a target that holds rows stops the preparation |
| `Import.PrepareAllReady` | internal/migrate/import.go:188-215 | preparation succeeds exactly when configuration and targets are ready in the tables it starts from, and otherwise fails with the first refusal: the configuration's, or that of the first target that is not ready |
| `Import.FirstRefusalExact` | internal/migrate/import.go:201-215 | the refusal of the targets is that of the first one that is not ready, and there is none exactly when all are |
| `Import.OpenSnapshots` | internal/migrate/import.go:81-106 | opens every snapshot or fails, whatever the channels |
| `Import.InputsChecked` | internal/migrate/import.go:55-106 | what the mapping check and the opening of snapshots return is what the rest of the import relies on |
| `Import.RoutedTargeted` | internal/migrate/import.go:201-215 | every routed record has a counted target, hence a created table |
| `Import.RoutedExists` | internal/migrate/import.go:120-153 | the sources can be routed exactly when every walk ends well and no mapped record has key-level metadata |
| `Import.ImportedHolds` | internal/migrate/import.go:216-242 | after an import the targets hold each mapped record under its key with its value, and no other row |
| `Import.CountsAnnounce` | internal/migrate/import.go:107-153 | the counts computed from metadata are the numbers of routed records, modulo 2^64 |
| `Import.InsertIntoPrepared` | internal/migrate/import.go:216-242 | with empty targets the insertions are refused exactly when two routed records share a target and key |
| `Import.CloseCheck` | internal/migrate/import.go:243-253 | accepts exactly when every target has its count and no row of another version, and adds up the rows modulo 2^64 |
| `Import.CloseCheckOutcome` | internal/migrate/import.go:243-253 | after the insertions the closing check fails only when some target was sent 2^64 records or more |
| `Import.AllRouted` | internal/migrate/import.go:251 | the records routed to the counted targets are all the routed records |
| `Import.RowTotalRouted` | internal/migrate/import.go:243-253 | the reported total is the number of records routed to the targets, modulo 2^64 |
| `Import.InsideTransaction` | internal/migrate/import.go:183-256 | the transaction up to its commit succeeds exactly when target, records and totals allow it, and leaves just the routed records, the policies and the configuration row beside what was there; each refusal has its one cause, and a refused preparation reports the first |
| `Import.Run` | internal/migrate/import.go:107-260 | succeeds if and only if mappings, sources and target are ready and no records collide or overflow; a failure at any step leaves the committed tables as they were; a success stores each mapped record under its key with its value in its target, and nothing else there, and leaves other application tables alone |
| `Import.ImportFiles` | internal/migrate/import.go:51-260 | from the mapping file and the snapshot files: succeeds if and only if the mapping is usable, every snapshot is readable and everything Run needs is there; a failure changes nothing |
| `StoredPolicies.PreparePolicies` | internal/migrate/config.go:498-582 | the calls of add succeed exactly when each policy resolves and verifies and none conflict, and the result records just their policies |
| `StoredPolicies.ImportedPolicySound` | internal/migrate/import.go:201-215 | after an import, the row stored for a target decodes to a policy that accepts exactly what each of its source policies accepts |
| `StoredPolicies.ImportWithPolicies` | internal/migrate/import.go:107-260 | policies are prepared before anything is stored; the import succeeds if and only if they can be and everything Run needs is there, and stores just them |
| `Concurrency.RunBatches` | internal/migrate/import.go:216-242 | inserting any division into batches is inserting everything |
| `Concurrency.ActionsComplete` | internal/migrate/import.go:183-260 | an import run statement by statement ends with the result stated for Run |
| `Concurrency.ActionsSucceed` | internal/migrate/import.go:183-260 | its statements succeed exactly when the tables are ready, no records collide and no total passes 64 bits |
| `Concurrency.DerivedSucceeds` | internal/migrate/import.go:107-260 | for a plan made from the inputs of an import, the statements succeed exactly when Run does |
| `Concurrency.InvNext` | internal/migrate/import.go:187-257 | every schema statement, lock, locked statement, abort and commit of any number of imports keeps the invariant: the lock holder alone sees its own changes on top of what is committed |
| `Concurrency.OneRuns` | internal/migrate/import.go:196-198 | imports create their system tables side by side, but at most one is past the lock |
| `Concurrency.Serializable` | internal/migrate/import.go:183-260 | after any interleaving the committed tables are those of the committed imports run alone, in commit order |
| `Concurrency.UncommittedLeaveNoTrace` | internal/migrate/import.go:183-187 | imports that fail, abort or never finish have no effect on what others commit |
| `Concurrency.CanCommit` | internal/migrate/import.go:183-260 | after any run of any number of imports, one that has not got the lock can still commit, provided its statements succeed on what is committed so far; it then commits what they make of it |
| `Concurrency.FreeLock` | internal/migrate/import.go:183-187 | the import that holds the lock can give it up without changing a table |
| `Concurrency.SerialReachable` | internal/migrate/import.go:183-260 | every order in which imports succeed one after the other is one in which they can commit |
| `Concurrency.SerialOwned` | internal/migrate/import.go:201-215 | after any number of imports, a table and its stored policy are untouched, or the table is empty, or both are the output of a single import |
| `Concurrency.OneImportPerTable` | internal/migrate/import.go:196-215 | a committed application table that was empty or absent at the start and now holds rows is the output of exactly one committed import, and so is its stored policy |

## Left out

- Files: opening, regular-file checks, SHA-256 digests and the second validation of inputs. The bytes read are taken to be the bytes hashed, so both walks over the sources see the same records.
- JSON decoding, command line, channel path lookup, and the metadata and directory checks of OpenStream (internal/fabricsnapshot/stream.go:30-116).
- Protobuf beyond the hand-written subset: messages are datatypes, marshalling tells well-formed messages apart and is otherwise unknown, and unmarshalling what was marshalled gives it back.
- Upstream policy evaluation and `Convert` are not part of the repository. Implicit-meta acceptance is a count of at least the threshold; a threshold of 0 over a non-empty list, which Fabric does not produce, is not described separately.
- Chaincode definition lookup, collection policy selection, capability comparison and configuration validation (internal/migrate/config.go:394-481, 487-497, 513-582): the calls of `add` are given, in any order.
- The committer's verifier for a namespace policy is an arbitrary predicate, and so is its check of namespace IDs; of the latter the import assumes that it refuses the empty name and the system namespaces.
- `SignedBy` and `NOutOf` wrapper objects are folded into the rule object, so taking over the type of the only branch copies its fields. Slices are sequences: that the sorted slice and the slice in the threshold share storage is not captured.
- The 32-bit conversions of list lengths and indexes (internal/migrate/config.go:198, 346) do not wrap in the model.
- Which error is reported when a file ends inside a varint is a parameter of the decoder; error texts are not modelled.
- A record callback that fails is modelled as failure of the whole walk; cancellation of the context appears only as an abort that may come at any point.
- SQL text, database detection and network failures. A database is a map of tables, a table a map from keys to rows, and table names are taken to be distinct for distinct namespaces.
- Isolation of real transactions: it is assumed that the configuration row stays locked from `ensureEntry` to commit or rollback, and that a transaction sees what was committed when it got the lock.
- Collisions.SeparateNoCollision: one direction only; sources that share a target may still have no common key. The exact condition on the records is in `Import.InsertIntoPrepared`.
- ConversionExact.DisjointConverts: a sufficient condition that needs no merging; the exact one is in `ConversionExact.ConversionExact`.
- ReuseMsps.CompatibleSucceeds: a sufficient condition that does not mention the order of organizations; the exact one is in `ReuseMsps.ReuseAllExact`.
- ImplicitMetaHeap.SortRules: returns the sorted branches instead of sorting in place; the slice and its sharing with the threshold are not modelled.
- ImplicitMetaHeap.PeerImplies: reads rule values, not rule objects; nothing is updated there.
- Concurrency.Serializable: rests on the row lock; conflicts that the database itself would detect between schema statements appear only as aborts.
- The resolved channel configuration enters `Import.Run` as bytes; that it is the target with the reused organizations is not proved there. The calls of `add` enter `StoredPolicies.ImportWithPolicies` as a list; that they are those of the chaincode definitions is not proved.
