# Arca: verified decision logic

Arca is an S3-compatible object store that runs as a cluster of peers. This
project models the decisions its correctness rests on and proves what they
promise over every input and every run:

- **Control-plane anti-entropy.** Two nodes exchange snapshots of thirteen
  families of rows (credentials, users, teams, grants, buckets, their
  attachments, configs, tags, uploads and parts) with tombstones, plan a
  last-writer-wins merge and carry it out one committed write at a time.
  `Resolve`, `ControlPlane`, `ControlMerge`, `Columns`, `MergeLaws`,
  `CrashSafety`, `Retry`, `Gossip`.
- **Replicated object rows.** One row per object version, a primary clock and
  two registers with clocks of their own. `ObjectRow`.
- **Cluster state.** Write gate, quorums, worker leader and the per-peer sync
  map. `ClusterState`.
- **Policy engine.** The backtracking glob matcher and deny-overrides
  evaluation. `Glob`, `Policy`.
- **AWS Signature Version 4.** Canonical query and headers, signing, the two
  parsers, presigned URLs, outbound requests and the chunk signature chain.
  `Query`, `SigV4`, `AuthParse`, `Binding`, `Presign`, `Outbound`, `Chunked`.
- **Background loops.** Blob reclamation racing with uploads, and the audit
  batch writer. `BlobGc`, `AuditWriter`.

`Wrappers`, `Order` and `Text` hold what the others share: an option type, the
byte order of strings, and splitting, trimming, decimal and hexadecimal text.

Loops and objects of the source are methods and classes here, each proved
against a function of its inputs or of the old state; the laws are proved about
those functions. HMAC and SHA-256 are parameters (`SigV4.Crypto`). No theorem
assumes them injective: where a result needs it, it asks that the hash does not
collide on the very texts at hand (`Binding.Distinguished`, `Chunked.AllApart`).

## What holds, and exactly when

Several promises hold only under a condition. For each of them a theorem states
the condition in both directions, so what fails is a whole family of inputs; for
most of them a particular input is given as well.

- **Glob.** A pattern `*` that faces a text character `*` consumes that one
  character, because the literal branch is tried first. The matcher is sound on
  every text, and decides the declarative relation for all patterns exactly on
  the texts without `*`.
- **Child rows after a merge.** With the cascades the planner relies on, every
  child keeps its parents. The SQL stores do not delete a bucket's config rows
  with the bucket (the reconcile worker's comment says they do), so with the
  stores' cascades integrity holds exactly when no bucket is deleted under a
  config that stays.
- **Credentials.** They are merged without looking at their user, while the
  stores delete them with the user. A credential can come back for a deleted
  user, exactly when one is adopted whose user is neither alive after the merge
  nor deleted by it.
- **Gossip.** A node holds the newest event of its causal past, at every moment
  of a run, exactly when no step takes the key's row away with a parent. Of the
  seven unfiltered families only credentials have one, under the stores'
  cascades; there two nodes with the same past can disagree, and a deleted
  credential can come back from before its deletion. Every other unfiltered key converges
  and stays deleted in every run.
- **A node's own tombstone.** It rules out every older row exactly when the node
  does not start with such a row beside it.
- **Second merge.** With either kind of cascade, planning again against the same
  peer yields the empty plan exactly when no row went only with its parent while
  the peer has something left to say about it: a newer deletion or, for a
  credential, the row itself. Two merges always settle.
- **Crashes.** Retrying reaches the uninterrupted result under a key, wherever
  the crash came, exactly when the key neither resurfaces in that sense nor
  lingers: a row taken away with its parent while a tombstone of the node's own,
  newer than the peer's row, stood beside it. On the way, identity rows no cascade
  touches never lose a deletion. Buckets and uploads can, exactly when the peer re-created them:
  their tombstone is cleared with the identity rows, before the metadata rows are
  written.
- **Equal instants.** Merging both ways leaves two nodes with the same row
  exactly when they did not hold different rows of one instant that outlives their
  tombstones; such a tie is never broken.
- **Uploads.** The stores insert uploads and never replace one. Carrying out a
  plan gives the merge exactly when no upload the peer offers has moved its start.
- **Object rows.** Two deliveries commute exactly when equal stamps carry equal
  values and rival overwrites have different blobs. Every run over a set of rows
  converges exactly when its rows commute pairwise and no rival's blob id stands
  between two rows of one lineage, unless the upper of the two is the newer in
  content and no older in its lock.
- **Rewind detection.** The prober stamps a report when all its probes are back,
  so later than it was taken. No run can be flagged for a counter that never
  decreases exactly when the counter stood still from the report to the last
  instant before the stamp.
- **Quorums of two views.** Where both nodes can gather a quorum, their quorums
  meet exactly when twice the quorum exceeds the ids either of them sees.
- **Blob reclamation.** Every run is safe exactly when the time from reading the
  references to the selection plus the time from writing a blob to committing its
  row is at most the grace period.
- **Presigned URLs.** The URL is parsed to what was meant and verifies exactly
  when key id, date and region hold no `/`, no extra parameter takes the place
  of an authentication parameter and reads differently, none is named
  `X-Amz-Signature`, and the granted method, path and host arrive.
- **Outbound requests.** The header parses back exactly when no field holds a
  separator and at least one header is signed; with none, the parser reports one
  empty name and the request still verifies. The comment on the signing function
  says it skips some headers and adds `host`; the code signs the headers it is
  given, and so does the model.

## Model

| member | source | states |
|---|---|---|
| `Glob.GlobMatch` | crates/arca-core/src/policy.rs:183-211 | terminates on every pattern and text and decides `Eager`, the relation that forgets nothing although the loop remembers only the last star |
| `Glob.NoEarlierArrival` | crates/arca-core/src/policy.rs:191-204 | however much later an attempt starts, what follows a segment taken character by character is reached no earlier |
| `Glob.NewStarSuffices` | crates/arca-core/src/policy.rs:194-198 | recording a newer star loses no match the older one could still find |
| `Glob.EagerSound` | crates/arca-core/src/policy.rs:183-211 | every accepted text fits the pattern |
| `Glob.EagerComplete` | crates/arca-core/src/policy.rs:183-211 | a text without `*` that fits the pattern is accepted |
| `Glob.StarInTextRefused` | crates/arca-core/src/policy.rs:191-194 | for every text with a `*`, a pattern that fits it and is refused |
| `Glob.GlobExact` | crates/arca-core/src/policy.rs:183-211 | the matcher decides the declarative relation for all patterns exactly on texts without `*` |
| `Policy.EvaluatePolicy` | crates/arca-core/src/policy.rs:236-252 | the verdict of a document: a denying statement beats an allowing one, which beats silence, wherever they stand |
| `Policy.EvaluateGrants` | crates/arca-core/src/policy.rs:260-276 | evaluating grant by grant is evaluating the one document of all statements |
| `Policy.AllowExactly` | crates/arca-core/src/policy.rs:218-276 | Allow exactly when an allowing statement has both an action and a resource pattern that match and no denying one has; Deny exactly when a denying one has |
| `Policy.AllowByGlob` | crates/arca-core/src/policy.rs:218-276 | on resources without `*`, the same with the declarative glob relation for the resource patterns |
| `Policy.UnmatchedStatementIrrelevant` | crates/arca-core/src/policy.rs:218-252 | a statement none of whose actions matches, or none of whose resources does, changes no verdict |
| `Policy.ActionMatchesExactly` | crates/arca-core/src/policy.rs:154-163 | a pattern matches the action it spells, or every action that continues what stands before its final `*`, and no other |
| `Policy.OrderIrrelevant` | crates/arca-core/src/policy.rs:236-276 | only the set of stated statements matters, not their order, repetition or grant |
| `Policy.ActionPatternMeaning` | crates/arca-core/src/policy.rs:154-163 | an action pattern whose only wildcard is a trailing `*` is the glob of the same text |
| `Policy.ResourcePatternMeaning` | crates/arca-core/src/policy.rs:175-180 | a resource pattern is its glob on every resource without `*` |
| `Resolve.OutcomeIsJoin` | crates/arca-core/src/cluster.rs:656-701 | the actions of one key compute the join of the two nodes' newest events, a write beating a delete of the same instant |
| `Resolve.OutcomeIsFixpoint` | crates/arca-core/src/cluster.rs:656-701 | resolving again against the same peer asks for nothing |
| `Resolve.LevelDeterminesMark` | crates/arca-core/src/cluster.rs:634-650 | live and deleted instants are determined by the newest event |
| `ControlPlane.JoinedKeyInjective` | crates/arca-core/src/cluster.rs:72-81 | the string an entity is keyed by determines its key when first components hold no colon |
| `ControlPlane.ColonCollides` | crates/arca-core/src/cluster.rs:72-81 | with a colon in a first component two keys share a string |
| `ControlPlane.TombstoneMap` | crates/arca-core/src/cluster.rs:705-714 | the last tombstone of every key of the family |
| `ControlPlane.PlanFamily` | crates/arca-core/src/cluster.rs:739-1164 | one family block asks for exactly the actions of its keys' resolutions, child rows only with all parents alive, and returns the keys that stay alive |
| `ControlPlane.PlanParts` | crates/arca-core/src/cluster.rs:1166-1188 | exactly the parts that are new or newer and whose upload stays alive |
| `ControlPlane.PlanControlMerge` | crates/arca-core/src/cluster.rs:730-1191 | for all snapshots: the pointwise actions of every key, and the parts row by row, repeated or not |
| `ControlPlane.FollowsMeets` | crates/arca-core/src/cluster.rs:1166-1188 | with distinct part keys that is the pointwise resolution of every key |
| `Columns.KeysByColumns` | crates/arca-core/src/cluster.rs:72-81 | two rows share a key exactly when their identifying columns agree, both of a two-part family, else the first |
| `Columns.LastRowShows` | crates/arca-core/src/cluster.rs:739-1164 | of the rows under one key a snapshot shows the last, and it shows no key without a row |
| `Columns.LastTombstoneShows` | crates/arca-core/src/cluster.rs:705-714 | likewise of tombstones |
| `Columns.NodeIdNeverPlanned` | crates/arca-core/src/cluster.rs:57-71 | no plan adopts, deletes, records or clears the server setting `node_id` |
| `Columns.PartsNeverDeleted` | crates/arca-core/src/cluster.rs:1166-1188 | no plan deletes a part or touches a part's tombstone |
| `Columns.UnstampedPartLoses` | crates/arca-core/src/cluster.rs:1166-1188 | a part without an instant never replaces one |
| `Columns.UpsertByColumns` | crates/arca-core/src/cluster.rs:908-1188 | a row is adopted exactly when it wins under its key and the team, user, grant, bucket or upload each of its columns names resolves alive |
| `Columns.PlanByColumns` | crates/arca-core/src/cluster.rs:908-1188 | every row a plan adopts has those rows, family by family |
| `Columns.IntegrityByColumn` | crates/arca-core/src/cluster.rs:908-1188 | after a merge with the documented cascades every membership has its team and its user, every attachment its user or team and its grant, every config and tag set its bucket, every part its upload |
| `Columns.RemoveByColumns` | crates/arca-storage/src/sqlite/team.rs:116-138 | a delete takes away exactly the row and the rows whose columns name it |
| `Columns.AdoptKeepsLatest` | crates/arca-storage/src/sqlite/control_tombstone.rs:35-56 | adopting tombstones in any order, some of them twice, keeps the latest of each key |
| `Columns.StoresByFamily` | crates/arca-storage/src/control_merge.rs:26-117 | which families go to the identity store |
| `ControlMerge.PhasesOf` | crates/arca-storage/src/control_merge.rs:26-117 | the groups of writes hold exactly the plan's actions, tombstones first |
| `ControlMerge.RunIsMerged` | crates/arca-storage/src/control_merge.rs:39-115 | executing any plan that meets the resolutions, write by write with cascades, gives the closed form `Merged` |
| `ControlMerge.StoredRunExactly` | crates/arca-storage/src/sqlite/metadata.rs:882-912 | with insert-only uploads a plan's execution gives `Merged` exactly when no upload moved its start |
| `ControlMerge.ReconcilePeer` | crates/arca-server/src/cluster/anti_entropy.rs:459-540 | one reconcile pass, planned and carried out as the stores do, ends in `Merged` when part keys are distinct and uploads immutable |
| `ControlMerge.MergedIsValid` | crates/arca-core/src/cluster.rs:730-1191 | a merge keeps rows under their own keys and node-local keys out |
| `MergeLaws.MergedMark` | crates/arca-core/src/cluster.rs:739-906 | for an unfiltered key no cascade drags, a merge is the join of the two marks |
| `MergeLaws.MergedIsCanonical` | crates/arca-core/src/cluster.rs:1223-1244 | after a merge every key shows at most one of row and tombstone, and any row is one of the two nodes' |
| `MergeLaws.ParentPresence` | crates/arca-core/src/cluster.rs:689-693 | a parent is present after the merge exactly when it resolved alive |
| `MergeLaws.IntegrityKept` | crates/arca-core/src/cluster.rs:908-1188 | if every local child has its parents, so does every child after the merge, with the documented cascades |
| `MergeLaws.IntegrityAsStored` | crates/arca-storage/src/sqlite/metadata.rs:337-349 | with the stores' cascades, exactly when no bucket goes under a config row that stays |
| `MergeLaws.BucketDeleteStrandsConfig` | crates/arca-storage/src/sqlite/metadata.rs:337-349 | two nodes whose merge leaves a config without its bucket |
| `MergeLaws.OwnershipAsStored` | crates/arca-storage/src/sqlite/user.rs:136-166 | credentials keep their users exactly when none is adopted whose user is already gone |
| `MergeLaws.CredentialOutlivesUser` | crates/arca-core/src/cluster.rs:739-775 | two nodes whose merge brings back a deleted user's credential |
| `MergeLaws.SettledPlanIsEmpty` | crates/arca-core/src/cluster.rs:601-629 | a pair is settled exactly when its plan is empty |
| `MergeLaws.KeySettles` | crates/arca-core/src/cluster.rs:739-1188 | under every key of every family, and both kinds of cascade, exactly when a second merge has something left to do |
| `MergeLaws.SecondMergeEmpty` | crates/arca-core/src/cluster.rs:730-1191 | planning again is empty exactly when nothing dragged away resurfaces, with the documented and with the stores' cascades |
| `MergeLaws.SecondMergeCanAct` | crates/arca-core/src/cluster.rs:929-940 | two closed nodes for which a second merge still acts on an attachment |
| `MergeLaws.CredentialActsAgain` | crates/arca-storage/src/sqlite/user.rs:136-166 | two nodes for which a second merge brings back a credential its user's deletion dragged away |
| `MergeLaws.TwoMergesSettle` | crates/arca-core/src/cluster.rs:730-1191 | two merges with an unchanged peer always settle, whatever the cascades |
| `CrashSafety.CrashStage` | crates/arca-storage/src/control_merge.rs:39-115 | after any prefix of the writes a key is untouched, half way or done |
| `Retry.CrashRow` | crates/arca-storage/src/control_merge.rs:39-115 | after any prefix of the writes the row under any key is the old one, the upserted one, or taken away by an executed delete |
| `Retry.RetryConverges` | crates/arca-storage/src/control_merge.rs:39-46 | after any crash the retry gives the uninterrupted row and tombstone under every key that neither resurfaces nor lingers |
| `Retry.RetryExactly` | crates/arca-server/src/cluster/anti_entropy.rs:474-540 | for every key of every family, that is exactly when |
| `Retry.FreeRetry` | crates/arca-storage/src/control_merge.rs:39-46 | always, for the families no cascade touches |
| `CrashSafety.IdentityNeverForgets` | crates/arca-storage/src/control_merge.rs:39-115 | no prefix forgets anything a node knew about an identity row |
| `CrashSafety.MetadataForgetsExactly` | crates/arca-server/src/cluster/anti_entropy.rs:474-540 | a crash can forget a deletion of a bucket or upload exactly when the peer re-created it |
| `Gossip.HoldsNewest` | crates/arca-core/src/cluster.rs:656-906 | over every run of pulls, writes and deletes that spares the key, a node holds the newest event of its causal past |
| `Gossip.FreeIsSpared` | crates/arca-core/src/cluster.rs:739-906 | every run spares the families no cascade touches |
| `Gossip.AlwaysNewestExactly` | crates/arca-storage/src/sqlite/user.rs:136-166 | nodes hold the newest event at every moment exactly when no step takes the key's row away with a parent |
| `Gossip.HoldsKnownRow` | crates/arca-core/src/cluster.rs:739-1188 | every live row, of every family, was held unchanged by a source in the node's past |
| `Gossip.Convergence` | crates/arca-core/src/cluster.rs:656-906 | nodes with the same past hold the same instants, and the same rows when equal instants carry equal rows, for every spared unfiltered key |
| `Gossip.CredentialDiverges` | crates/arca-storage/src/sqlite/user.rs:136-166 | for every credential of a deleted user, two nodes with one past that disagree on it |
| `Gossip.NoResurrection` | crates/arca-core/src/cluster.rs:665-700 | a node that knows of a deletion, its own or another's, never again shows the key live from before it, even after its tombstone is cleared |
| `Gossip.OwnTombstoneExactly` | crates/arca-core/src/cluster.rs:665-700 | for a node's own tombstone, exactly when it does not start with an older row beside it |
| `Gossip.CredentialResurrected` | crates/arca-storage/src/sqlite/user.rs:136-166 | a run in which a deleted credential comes back from before its deletion |
| `Gossip.TiesExactly` | crates/arca-core/src/cluster.rs:656-701 | merging both ways leaves one row exactly when the two did not hold different rows of one instant |
| `Gossip.TiesKeepLocal` | crates/arca-core/src/cluster.rs:656-701 | any two rows of one instant stay apart after both nodes have pulled |
| `ObjectRow.ResolveReplicated` | crates/arca-core/src/types.rs:209-251 | the row to persist is the join, and none when the join is the local row but for `is_latest` |
| `ObjectRow.AdoptedRowClimbs` | crates/arca-core/src/types.rs:209-251 | an adopted row moves some clock forward and none back |
| `ObjectRow.JoinIgnoresLatest` | crates/arca-core/src/types.rs:178-184 | `is_latest` influences nothing but itself |
| `ObjectRow.CommutesExactly` | crates/arca-core/src/types.rs:209-251 | the order of two deliveries is immaterial exactly for coherent rows |
| `ObjectRow.LockFollowsItsClock` | crates/arca-core/src/types.rs:226-248 | after any deliveries of one lineage the lock comes from the first with the greatest lock stamp |
| `ObjectRow.ContentFollowsItsClock` | crates/arca-core/src/types.rs:226-248 | likewise the content, independently of the lock |
| `ObjectRow.JoinOfJoins` | crates/arca-core/src/types.rs:209-251 | merging the joins of two sets of rows gives the join of their union |
| `ObjectRow.JoinIsUnique` | crates/arca-core/src/types.rs:178-251 | a set of separated rows has one join up to `is_latest` |
| `ObjectRow.JoinLaws` | crates/arca-core/src/types.rs:209-251 | the merge is associative, commutative and idempotent up to `is_latest` |
| `ObjectRow.RedeliveryIgnored` | crates/arca-core/src/types.rs:209-251 | delivering an absorbed row again changes nothing |
| `ObjectRow.HoldsJoin` | crates/arca-storage/src/sqlite/metadata.rs:739-808 | over every run of replacing local writes and pulls a node holds the join of the rows it heard of |
| `ObjectRow.RowsConverge` | crates/arca-core/src/types.rs:209-251 | nodes that heard of the same separated rows hold the same row |
| `ObjectRow.RowsConvergeExactly` | crates/arca-core/src/types.rs:209-251 | every run over a set of rows converges exactly when the set is separated |
| `ObjectRow.TripleBothWays` | crates/arca-core/src/types.rs:218-248 | with a rival between two rows of one lineage, both orders agree exactly when the upper row is the newer |
| `ObjectRow.ReencryptionUnderRivalDiverges` | crates/arca-core/src/types.rs:218-225 | three pairwise coherent rows over which runs do not converge |
| `ClusterState.State.constructor` | crates/arca-core/src/cluster.rs:1536-1552 | no peers and no sync entries at the start |
| `ClusterState.State.ReplacePeers` | crates/arca-core/src/cluster.rs:1640-1646 | the new membership, and sync entries kept for known peers only |
| `ClusterState.StatusIsHistory` | crates/arca-core/src/cluster.rs:1640-1702 | over every run of map operations a peer's entry is its last mark not reset, its last pass and its skips since it was last dropped |
| `ClusterState.State.SetSyncHwm` | crates/arca-core/src/cluster.rs:1670-1675 | mark and instant set, the rest of the map unchanged |
| `ClusterState.State.ResetSyncHwm` | crates/arca-core/src/cluster.rs:1680-1685 | mark and instant cleared, the rest of the map unchanged |
| `ClusterState.State.RecordReconcileComplete` | crates/arca-core/src/cluster.rs:1690-1695 | pass recorded, the rest of the map unchanged |
| `ClusterState.State.RecordSkippedEntry` | crates/arca-core/src/cluster.rs:1699-1702 | counter raised, the rest of the map unchanged |
| `ClusterState.State.EligibleNodeCount` | crates/arca-core/src/cluster.rs:1750-1763 | this node and its eligible peers |
| `ClusterState.State.GateNow` | crates/arca-core/src/cluster.rs:1773-1793 | the gate of the current membership |
| `ClusterState.State.IsWorkerLeader` | crates/arca-core/src/cluster.rs:1815-1822 | whether this id is below every eligible peer's |
| `ClusterState.IntersectionExactly` | crates/arca-core/src/cluster.rs:254-259 | any two quorums of a set of nodes meet exactly when twice the quorum exceeds the set |
| `ClusterState.OpenGateQuorumsMeet` | crates/arca-core/src/cluster.rs:1773-1793 | an open gate with the majority of the configured size makes every two quorums of eligible nodes meet |
| `ClusterState.ViewsIntersectExactly` | crates/arca-core/src/cluster.rs:254-259 | quorums of two nodes' different views meet exactly when twice the quorum exceeds the union of the views |
| `ClusterState.GateExactly` | crates/arca-server/src/config.rs:1034-1039 | within the configured size the gate is open exactly when some quorum of eligible nodes exists |
| `ClusterState.IneligiblePeersIgnored` | crates/arca-core/src/cluster.rs:1332-1334 | ineligible peers sway neither gate, quorums nor leader |
| `ClusterState.FailingPeerIgnored` | crates/arca-core/src/cluster.rs:1332-1334 | a peer that is down, unauthenticated or misconfigured can be taken out of the list without effect on count, ids or leader |
| `ClusterState.SoundPeerCounts` | crates/arca-core/src/cluster.rs:1332-1334 | a peer that passes all three tests counts once |
| `ClusterState.GateModes` | crates/arca-core/src/cluster.rs:1773-1793 | without a quorum every write goes ahead; with one, a cluster over its size is reported before a missing quorum |
| `ClusterState.OneLeader` | crates/arca-core/src/cluster.rs:1815-1822 | in a settled cluster exactly one node leads |
| `ClusterState.HwmHasItsTime` | crates/arca-core/src/cluster.rs:1640-1702 | over every run of map operations a mark without an instant is zero |
| `ClusterState.FallbackUnreachable` | crates/arca-core/src/cluster.rs:1405-1423 | a rewind is never judged by the fallback branch |
| `ClusterState.NoFalseAlarmExactly` | crates/arca-server/src/cluster/membership.rs:174-177 | for reports stamped after the probes return, exactly when no run can be flagged for a counter that never decreases |
| `ClusterState.NoFalseAlarm` | crates/arca-core/src/cluster.rs:1405-1423 | a report whose counter stood still until its stamp is never flagged |
| `ClusterState.LateStampFalseAlarm` | crates/arca-server/src/cluster/membership.rs:174-177 | a counter that moved before the stamp, and a run flagged for it |
| `ClusterState.RestoreIsDetected` | crates/arca-core/src/cluster.rs:1405-1423 | a restored peer below the mark is flagged by exactly the reports later than the last advance |
| `BlobGc.PlanBlobGc` | crates/arca-core/src/cluster.rs:1203-1220 | exactly the unreferenced files whose age has reached the grace period |
| `BlobGc.AddLiveCompositeParts` | crates/arca-server/src/blob_gc.rs:102-115 | adds exactly the parts of the composites that are themselves referenced |
| `BlobGc.OnlyReferencedCompositesKeep` | crates/arca-server/src/blob_gc.rs:102-115 | the sidecar of an unreferenced composite keeps nothing alive, that of a referenced one its parts |
| `BlobGc.SidecarOrderIrrelevant` | crates/arca-server/src/blob_gc.rs:102-115 | the live set does not depend on the order of sidecars |
| `BlobGc.ReferencedBlobIds` | crates/arca-server/src/blob_gc.rs:81-95 | the complete live set, or an error when any enumeration or read fails |
| `BlobGc.ReclaimBlobs` | crates/arca-server/src/blob_gc.rs:128-173 | deletes nothing after a failed enumeration, skips failed deletes; `reclaimed` is the number of candidates whose delete succeeds, `failed` that of the others |
| `BlobGc.VictimNotLive` | crates/arca-server/src/blob_gc.rs:51-76 | whatever happened since the references were read, a chosen file is not live |
| `BlobGc.UsersAreFree` | crates/arca-server/src/blob_gc.rs:51-76 | uploads, deletes and failures may come at any point of a pass |
| `BlobGc.InvKept` | crates/arca-server/src/blob_gc.rs:51-173 | every event of uploads, deletes and the pass keeps the invariant |
| `BlobGc.ReclaimIsSafe` | crates/arca-server/src/blob_gc.rs:51-173 | when a scan and an upload's delay fit in the grace period, no interleaving with any failures leaves a live blob without its file |
| `BlobGc.SafeExactly` | crates/arca-core/src/cluster.rs:1203-1220 | for every grace, delay and scan time, all runs are safe exactly when the scan and the delay fit in the grace period |
| `AuditWriter.RunWriter` | crates/arca-proto/src/state.rs:375-411 | the nested loops follow the step system on every script of events |
| `AuditWriter.NothingLostOrReordered` | crates/arca-proto/src/state.rs:375-411 | batches and the pending one concatenate to the received entries in order, none empty or over the bound, nothing pending at the end |
| `AuditWriter.HandoverExactly` | crates/arca-proto/src/state.rs:375-411 | over every run, exactly which event hands a batch over, read off the events, and that it leaves nothing received behind |
| `AuditWriter.StateFromEvents` | crates/arca-proto/src/state.rs:375-411 | whether draining is observed and the writer ended, read off the events alone |
| `AuditWriter.NextEventExactly` | crates/arca-proto/src/state.rs:375-411 | over every run, exactly which events can come next: a window ends only with entries pending, drain news comes only then and until the signal is lost |
| `AuditWriter.DrainedBatchesAreSingle` | crates/arca-proto/src/state.rs:375-411 | once draining is observed every later batch is one entry |
| `Query.UriEncode` | crates/arca-auth/src/sigv4.rs:445-461 | the loop computes the encoding that form decoding undoes |
| `Query.DecodeEncode` | crates/arca-auth/src/sigv4.rs:445-461 | decoding gives back every encoded byte string, so encoding is injective |
| `Order.LessMeans` | crates/arca-auth/src/sigv4.rs:318 | one string is below another exactly when it is a proper prefix or smaller at the first difference |
| `Text.HexReads` | crates/arca-auth/src/sigv4.rs:421-424 | each byte of a signature or hash is written as two lower-case digits, the high one first |
| `Text.TrimParts` | crates/arca-auth/src/parse.rs:67-73 | what trimming takes away is white space at the two ends |
| `Text.SpaceCharacters` | crates/arca-auth/src/parse.rs:67-73 | which characters are white space |
| `Text.LowerByAlphabet` | crates/arca-auth/src/parse.rs:67-73 | lower-casing maps each capital to its small letter and leaves every other character |
| `Text.ParseU64Limits` | crates/arca-auth/src/parse.rs:176-180 | a decimal number is read exactly when it fits in 64 bits, with or without a plus sign |
| `Query.SortedUnique` | crates/arca-auth/src/sigv4.rs:318 | a multiset of pairs has one sorted order |
| `Query.ParseRender` | crates/arca-auth/src/sigv4.rs:309-325 | a rendered list of encoded pairs parses back to the decoded list in order |
| `Query.CanonicalQueryString` | crates/arca-auth/src/sigv4.rs:309-325 | the method computes the canonical form |
| `Query.CanonicalQueryComplete` | crates/arca-auth/src/sigv4.rs:309-325 | two query strings share the canonical form exactly when they decode to the same multiset of pairs |
| `Query.CanonicalOfNormal` | crates/arca-auth/src/sigv4.rs:309-325 | a `+`, its `%20`, and the two cases of an escape's digits are one query |
| `Query.ParseConcat` | crates/arca-auth/src/sigv4.rs:309-325 | two queries with `&` between them have the pairs of both |
| `Query.ParsePiece` | crates/arca-auth/src/sigv4.rs:309-325 | an empty piece is no pair, one without `=` a key with an empty value, else the first `=` separates |
| `Query.DecodeLiteral` | crates/arca-auth/src/sigv4.rs:309-325 | characters that start no escape and are no plus stand for themselves |
| `Query.CanonicalAscends` | crates/arca-auth/src/sigv4.rs:318 | in the canonical form keys ascend, and values under one key |
| `Query.EncodedIsNormal` | crates/arca-auth/src/sigv4.rs:445-461 | encoded text is its own normal form: upper-case escapes, no `+` |
| `Query.EncodeBySegments` | crates/arca-auth/src/sigv4.rs:445-461 | with slashes kept a path is encoded segment by segment |
| `SigV4.TrimHeaderValue` | crates/arca-auth/src/sigv4.rs:364-380 | the loop trims and collapses runs of spaces |
| `SigV4.HeaderValueCanonical` | crates/arca-auth/src/sigv4.rs:364-380 | the result has no outer white space and no double space, and is a fixed point |
| `SigV4.HeaderValueIsWords` | crates/arca-auth/src/sigv4.rs:364-380 | it is the words of the trimmed value with one space between them |
| `SigV4.CanonicalHeaders` | crates/arca-auth/src/sigv4.rs:333-361 | the nested loops select, sort and write the block of signed headers |
| `SigV4.SortByNameSorts` | crates/arca-auth/src/sigv4.rs:333-361 | the selected headers are written in ascending order of names, none added and none lost |
| `SigV4.HeaderBlockAlike` | crates/arca-auth/src/sigv4.rs:333-361 | case of names and extra spaces in values never reach the block |
| `SigV4.SignedNamesMeaning` | crates/arca-auth/src/sigv4.rs:264-272 | the signed names are the lower-cased names, strictly sorted |
| `SigV4.KeyDerivation` | crates/arca-auth/src/sigv4.rs:412-418 | the secret, the date, the region, the service and the marker enter the key in this order |
| `Binding.BlockBinds` | crates/arca-auth/src/sigv4.rs:333-361 | the block is the same exactly when every signed name has the same values in order |
| `Binding.SignatureBinds` | crates/arca-auth/src/sigv4.rs:390-424 | two requests share a signature exactly when they agree on all that is signed, unless a hash collides on them |
| `Binding.StringToSignReads` | crates/arca-auth/src/sigv4.rs:407-409 | the string to sign has the standard's four lines in order |
| `Binding.ToSignReads` | crates/arca-auth/src/sigv4.rs:407-409 | of a request: the algorithm, the instant, date/region/service/aws4_request, the hash of the canonical request |
| `Binding.RequestReads` | crates/arca-auth/src/sigv4.rs:390-404 | the canonical request reads back as method, path, query, one line for each signed header, an empty line, the names, the payload hash |
| `AuthParse.ParseAuthorization` | crates/arca-auth/src/parse.rs:25-93 | the loop keeps the last value of each field; every error in its order |
| `AuthParse.ParsedIsClean` | crates/arca-auth/src/parse.rs:25-93 | whatever the header, no separator survives in a parsed field, and there is at least one name |
| `AuthParse.ScopeExactly` | crates/arca-auth/src/parse.rs:53-93 | accepted exactly when the credential is key id, date, region, service and `aws4_request` between slashes and the signature is not empty |
| `AuthParse.ParseQueryStringAuth` | crates/arca-auth/src/parse.rs:122-211 | the loop keeps the last value of each parameter; every error in its order |
| `Presign.CanonicalQueryStringPresigned` | crates/arca-auth/src/sigv4.rs:148-165 | the canonical form of all pairs but those named `X-Amz-Signature` |
| `Presign.UrlParses` | crates/arca-auth/src/sigv4.rs:171-230 | a generated URL parses to its parameters in signing order, then the signature |
| `Presign.ParserKeepsGreatest` | crates/arca-auth/src/parse.rs:130-140 | of several values of one name in a generated URL, the parser keeps the one with the greatest encoding |
| `Presign.PresignParsesExactly` | crates/arca-auth/src/parse.rs:122-211 | the URL parses to what was meant exactly when no slash or extra parameter interferes |
| `Presign.PresignedQueryExactly` | crates/arca-auth/src/sigv4.rs:148-165 | dropping the signature restores the signed query exactly when no other pair has its name |
| `Presign.PresignedMeans` | crates/arca-auth/src/sigv4.rs:99-141 | what is compared is the hash of the string to sign with an unsigned payload, under the key of the parsed scope |
| `Presign.PresignVerifiesExactly` | crates/arca-auth/src/sigv4.rs:99-141 | the signature verifies exactly for the granted method, path and host with no rival signature |
| `Presign.PresignRoundTrip` | crates/arca-auth/src/sigv4.rs:171-230 | generated, parsed and verified: accepted, whatever the hashes do |
| `Presign.PresignRoundTripExactly` | crates/arca-auth/src/sigv4.rs:99-230 | the exact condition for the round trip, unless a hash collides |
| `Presign.OtherNamesUndisturbed` | crates/arca-auth/src/sigv4.rs:188-196 | extra parameters that avoid the five names never interfere |
| `Presign.SlashInKeyId` | crates/arca-auth/src/parse.rs:150-160 | a key id with a slash for which the round trip fails |
| `Outbound.HeaderReads` | crates/arca-auth/src/parse.rs:25-51 | the three fields of a written header are found again |
| `Outbound.OutboundText` | crates/arca-auth/src/sigv4.rs:261-292 | the header sent is the documented text, field by field |
| `Outbound.VerifyMeans` | crates/arca-auth/src/sigv4.rs:35-77 | what is compared is the hash of the string to sign of the canonicalised request, under the key of the parsed scope |
| `Outbound.OutboundParsesExactly` | crates/arca-auth/src/sigv4.rs:261-292 | the header parses to the meant scope, names and signature exactly for clean fields and at least one header |
| `Outbound.NothingSigned` | crates/arca-auth/src/parse.rs:67-76 | without headers the parser reports one empty name |
| `Outbound.OutboundRoundTrip` | crates/arca-auth/src/sigv4.rs:35-77 | signed, parsed and verified: every clean request is accepted |
| `Outbound.OutboundAcceptedExactly` | crates/arca-auth/src/sigv4.rs:35-77 | a received request is accepted exactly when method, path, payload hash, query pairs and signed header values agree, unless a hash collides |
| `Chunked.ChunkVerifier.constructor` | crates/arca-auth/src/chunked.rs:49-56 | derived key, scope, and the request's signature as seed |
| `Chunked.ChunkVerifier.VerifyChunk` | crates/arca-auth/src/chunked.rs:60-90 | accepts exactly the expected signature; a rejected call changes nothing |
| `Chunked.ChunkVerifier.VerifyTrailer` | crates/arca-auth/src/chunked.rs:74-96 | likewise for the trailer |
| `Chunked.ChunkVerifier.Advance` | crates/arca-auth/src/chunked.rs:98-105 | the stored signature moves exactly on success |
| `Chunked.ChunkTextReads` | crates/arca-auth/src/chunked.rs:60-70 | a chunk's signed text reads back as its six lines in order |
| `Chunked.TrailerTextReads` | crates/arca-auth/src/chunked.rs:74-83 | a trailer's signed text reads back as its five lines in order |
| `Chunked.ExpectedMeans` | crates/arca-auth/src/chunked.rs:60-83 | the expected signature is the hash of the element's text under the upload's key |
| `Chunked.StoredIsChain` | crates/arca-auth/src/chunked.rs:60-105 | over every run of calls the stored signature is the chain over exactly the accepted elements |
| `Chunked.HonestAccepted` | crates/arca-auth/src/chunked.rs:60-105 | an honestly signed upload is accepted whole |
| `Chunked.SignatureBindsElement` | crates/arca-auth/src/chunked.rs:60-83 | one signature binds the kind and content of its element and the signature before it |
| `Chunked.ChainBinds` | crates/arca-auth/src/chunked.rs:60-105 | of two chains ending alike the shorter is the end of the longer, and what precedes it leads back to the seed |
| `Chunked.UploadBinds` | crates/arca-auth/src/chunked.rs:60-105 | equally many accepted elements and the same stored signature mean the same elements in order |
| `Chunked.CanonicalTrailer` | crates/arca-auth/src/chunked.rs:111-124 | the loop writes the covered headers, in the order sent |
| `Chunked.OwnSignatureNotCovered` | crates/arca-auth/src/chunked.rs:111-124 | the trailer signature's own header, in whatever case, is left out wherever it stands; every other header is covered in its place |
| `Chunked.TrailerTextBinds` | crates/arca-auth/src/chunked.rs:111-124 | the trailer text determines the covered headers |

## Left out

- HMAC, SHA-256 and constant-time comparison: parameters and equality.
- UTF-8: strings are byte strings, case and white space are ASCII; the form parser's replacement of invalid UTF-8 is not modelled, so `Query.CanonicalQueryComplete` speaks of the decoded bytes.
- Gossip.Convergence: speaks of the seven unfiltered families. For child families a tombstone is cleared even when the parent keeps the row out, so marks do not form a lattice; they are covered by the integrity, settling and retry results.
- Gossip.NoResurrection: the same families.
- ControlMerge.ReconcilePeer: assumes that part rows of a snapshot have distinct keys (the table's primary key) and that uploads are immutable (`ControlMerge.StoredRunExactly` has the exact condition). A metadata write that fails alone, which the worker logs and skips, is not modelled; a crash is.
- BlobGc.ReclaimIsSafe: temporary upload files and scan statistics are not modelled, and every event has an instant of its own, so the exact bound asks for two instants of delay and four of scan.
- AuditWriter.RunWriter: the store's own failures and the channel's capacity are not modelled; the await points become a script of events.
- ClusterState: locks and atomics, disk figures, the syncing flag and membership probing.
- Snapshot and plan families are one list of tagged rows; serialisation of snapshots is not modelled.
- The SQL stores except for the cascades and conflict rules the merge depends on, and the purge of old tombstones.
- Expiry of presigned URLs, which the caller checks against a clock.
- HTTP routing, replication filters, metrics, migration, the console and the command line.
