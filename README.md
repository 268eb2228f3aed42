# Chord DHT with Dynamo-style versioning — a Dafny model

This project models the per-node logic of a Chord distributed hash table whose records carry vector clocks and are replicated under read and write quorums (N replicas, R reads, W writes), with sloppy quorums and hinted handoff. It covers:

- the vector clock and its causal order (`consistency/vector_clock.py`);
- the identifier ring, the finger table and the full-ring node list (`chord/routing.py`);
- the per-node record store with its primary and backup maps (`chord/storage.py`);
- the node's topology state (successor, predecessor, successor list, fingers) and the decisions taken on the replies of its periodic tasks (`chord/node.py`);
- the replication and quorum rules (`consistency/replication.py`, `consistency/quorum.py`);
- the request handlers that drive the store (`main.py`);
- the client's owner lookup (`client/cli.py`);
- the configuration check (`config.py`).

Each source file has its own module:

| module | file | flavour |
|---|---|---|
| `Base` | `base.dfy` | helpers: `Option`, the `Rpc` reply type, Python slicing |
| `VectorClocks` | `vector_clock.dfy` | `VectorClock` class over a `map<int, int>` |
| `Routing` | `routing.dfy` | `FingerTable` class with a finger `array` |
| `Storage` | `storage.dfy` | `ChordStorage` class with map fields |
| `Node` | `node.dfy` | `ChordNode` class |
| `Replication` | `replication.dfy` | reply filtering |
| `Quorum` | `quorum.dfy` | `QuorumManager` class |
| `Config` | `config.dfy` | pure |
| `Coordinator` | `coordinator.dfy` | the `main.py` handlers |
| `Client` | `client.dfy` | pure |

Messages from other nodes are passed in as parameters, of type `Rpc<T>`:

- `Reply(body)` for an answer;
- `NoReply` for `None` or a timeout;
- `Raised` for an exception.

The replies of a fan-out come as a sequence aligned with the nodes asked. A timeout of a whole gather is a boolean parameter.

SHA-1 is a `digest: string -> nat` parameter that the model reduces modulo 2^m. Record values are a type parameter `V`.

Where the source compares `NodeInfo` objects with `==`, which compares only node ids, the model compares `.id`.

## Model

| member | source | states |
|---|---|---|
| VectorClocks.Inc | consistency/vector_clock.py:30-41 | raises one entry by exactly 1, reading a missing entry as 0; every other entry is unchanged |
| VectorClocks.Join | consistency/vector_clock.py:43-51 | the key set is the union; the result dominates the receiving clock; every entry of the other clock is at most the result's |
| VectorClocks.JoinIsLeastUpperBound | consistency/vector_clock.py:43-51 | when the receiving clock has no negative counter, `update` dominates both clocks and is dominated by every common upper bound |
| VectorClocks.MergeIsAfterBoth | consistency/vector_clock.py:53-67 | `merge` is strictly after both the old clock and the other clock |
| VectorClocks.IncIsAfter | consistency/vector_clock.py:30-41 | the incremented clock is strictly after the original |
| VectorClocks.BeforeIrreflexive | consistency/vector_clock.py:78-108 | no clock happens before itself |
| VectorClocks.BeforeAsymmetric | consistency/vector_clock.py:78-108 | happens-before is never true both ways |
| VectorClocks.BeforeTransitive | consistency/vector_clock.py:78-108 | happens-before is transitive |
| VectorClocks.DominatesTransitive | consistency/vector_clock.py:124-145 | dominates is transitive |
| VectorClocks.EquivNotBefore | consistency/vector_clock.py:110-122 | clocks equal up to zero entries are concurrent: neither happens before the other |
| VectorClocks.DominatesIffAfterOrEqual | consistency/vector_clock.py:124-174 | `dominates(a, b)` iff b happens before a or the two are equal, matching `__ge__` |
| VectorClocks.VectorClock.constructor | consistency/vector_clock.py:17-28 | the clock holds the given entries |
| VectorClocks.VectorClock.Increment | consistency/vector_clock.py:30-41 | the field becomes `Inc` of its old value |
| VectorClocks.VectorClock.Update | consistency/vector_clock.py:43-51 | the field becomes the entrywise maximum with the other clock |
| VectorClocks.VectorClock.Merge | consistency/vector_clock.py:53-67 | the field becomes the update followed by the increment |
| VectorClocks.VectorClock.Copy | consistency/vector_clock.py:69-76 | a fresh object with the same entries |
| VectorClocks.VectorClock.HappensBefore | consistency/vector_clock.py:78-108 | the loop computes exactly `Before`: no entry larger and one smaller |
| VectorClocks.VectorClock.ConcurrentWith | consistency/vector_clock.py:110-122 | true exactly when neither clock happens before the other |
| VectorClocks.VectorClock.DominatesClock | consistency/vector_clock.py:124-145 | the loop computes exactly `Dominates` over the key union |
| VectorClocks.VectorClock.Equals | consistency/vector_clock.py:147-158 | equality reads missing entries as 0 |
| VectorClocks.VectorClock.AtMost | consistency/vector_clock.py:164-166 | `__le__` is the other clock dominating this one |
| VectorClocks.VectorClock.AtLeast | consistency/vector_clock.py:172-174 | `__ge__` is this clock dominating the other |
| VectorClocks.CompareVersions | consistency/vector_clock.py:212-230 | exactly one of equal, before, after and concurrent, each tied to the order |
| VectorClocks.Latest | consistency/vector_clock.py:233-270 | `get_latest_version` as written: `None` for no versions, the version for one, else the single undominated version or `None`; the candidate lemmas and `LatestConflictIffTwoMaximal` characterise it |
| VectorClocks.GetLatestVersion | consistency/vector_clock.py:233-270 | the nested candidate loop computes `Latest` |
| VectorClocks.CandidatesAreMaximal | consistency/vector_clock.py:250-262 | every candidate is a listed version that nothing listed happens after |
| VectorClocks.MaximalIsCandidate | consistency/vector_clock.py:250-262 | every such maximal version is a candidate |
| VectorClocks.BelowSomeMaximal | consistency/vector_clock.py:233-270 | every listed version is maximal or happens before a maximal one |
| VectorClocks.LatestIsAfterAllOthers | consistency/vector_clock.py:233-270 | with two or more versions, a non-`None` answer is listed once and every other version happens before it |
| VectorClocks.LatestConflictIffTwoMaximal | consistency/vector_clock.py:233-270 | with two or more versions, `None` exactly when two listed positions are maximal |
| VectorClocks.LatestAsWrittenConflictsOnAgreement | consistency/vector_clock.py:233-270 | the rule as written answers `None` for `[{1:1}, {1:2}, {1:2}]`, which has no conflict |
| VectorClocks.AgreedCandidatesAreMaximal | consistency/vector_clock.py:250-262 | the repaired candidate list holds maximal listed versions, no two equal |
| VectorClocks.MaximalHasAgreedCandidate | consistency/vector_clock.py:250-262 | every maximal version has an equal repaired candidate |
| VectorClocks.LatestAgreedDominatesAll | consistency/vector_clock.py:233-270 | the repaired rule's answer is a listed version that dominates every listed version |
| VectorClocks.LatestAgreedConflictIffConcurrentMaximal | consistency/vector_clock.py:233-270 | the repaired rule reports a conflict exactly when two maximal versions differ, and maximal versions are pairwise concurrent |
| VectorClocks.LatestAgreedPicksNewest | consistency/vector_clock.py:233-270 | the repaired rule answers `{1:2}` for `[{1:1}, {1:2}, {1:2}]` |
| VectorClocks.ParseShow | consistency/vector_clock.py:176-199 | a node id written as a string reads back as the same id |
| VectorClocks.DictRoundTrip | consistency/vector_clock.py:176-199 | `from_dict(to_dict(v)) == v` |
| VectorClocks.FromDictOnlyToDict | consistency/vector_clock.py:176-199 | the only dictionary read back as `v` is `to_dict(v)` |
| Routing.HashToRing | chord/routing.py:312-330 | the hashed position lies in [0, 2^m) |
| Routing.InRange | chord/routing.py:333-372 | `in_range` on the circle: every id when start equals end, else the arc from start to end with each end in or out as asked; `InRangeIsClockwiseArc` characterises it by clockwise distance |
| Routing.InRangeIsClockwiseArc | chord/routing.py:333-372 | `start == end` contains every identifier; otherwise membership is the clockwise arc from start to end with the chosen open or closed ends |
| Routing.Upsert | chord/routing.py:175-198 | the list stays sorted with unique ids; it holds the new node and every old node with another id |
| Routing.UpsertIds | chord/routing.py:175-198 | adding a node adds exactly its id |
| Routing.UpsertReplaces | chord/routing.py:183-188 | adding a known id only replaces that entry in place |
| Routing.Normalize | chord/routing.py:153-173 | `set_all_nodes` yields a strictly ascending id list |
| Routing.NormalizeKeepsLastOfEachId | chord/routing.py:153-173 | of nodes given twice with the same id, the one given last survives |
| Routing.NormalizeKeepsIds | chord/routing.py:153-173 | no id is lost or invented |
| Routing.WithoutId | chord/routing.py:210 | the list keeps exactly the nodes with another id, still sorted |
| Routing.FirstAtLeast | chord/routing.py:242-261 | the index of the first node with id at least the target |
| Routing.RingSuccessorIsClockwiseFirst | chord/routing.py:242-261 | `None` only on an empty view; otherwise the smallest id at or after the target, or the smallest id overall when none is |
| Routing.RingSuccessorIs | chord/routing.py:242-261 | a listed node meeting that description is the answer |
| Routing.NSuccessorsShape | chord/routing.py:263-296 | `[]` on an empty view or n <= 0, else min(n, \|nodes\|) nodes from the view, the first being the key's successor |
| Routing.NSuccessorsDistinct | chord/routing.py:263-296 | the nodes returned have distinct ids |
| Routing.NSuccessorsAreNeighbours | chord/routing.py:263-296 | each node returned is the next one in id order after the previous, wrapping round |
| Routing.ClosestPrecedingIsHighest | chord/routing.py:101-117 | `None` iff no finger lies in (self, id]; otherwise the highest-index such finger |
| Routing.FingerTable.constructor | chord/routing.py:39-60 | m empty finger slots with starts `(n + 2^i) mod 2^m` and an empty node list |
| Routing.FingerTable.GetFinger | chord/routing.py:62-74 | the slot for an index in [0, m), `None` outside |
| Routing.FingerTable.SetFinger | chord/routing.py:76-85 | writes exactly that slot; an index outside [0, m) changes nothing |
| Routing.FingerTable.GetStart | chord/routing.py:87-99 | `(n + 2^i) mod 2^m` inside [0, m), -1 outside |
| Routing.FingerTable.FindClosestPrecedingFinger | chord/routing.py:101-117 | the backwards scan computes `ClosestPreceding` |
| Routing.FingerTable.SetSuccessor | chord/routing.py:128-135 | writes slot 0 and nothing else |
| Routing.FingerTable.FindSuccessorFromAll | chord/routing.py:242-261 | the scan computes `RingSuccessor` of the view |
| Routing.FingerTable.SetAllNodes | chord/routing.py:153-173 | the view becomes the sorted, de-duplicated list; the successor becomes the first id above self, else the smallest |
| Routing.FingerTable.AddNode | chord/routing.py:175-198 | as written: a known id is replaced in place in the view and the fingers stay; a new node joins the view in sorted position and becomes the successor exactly when `AdoptsAsWritten` holds |
| Routing.FingerTable.AddNodeChecked | chord/routing.py:175-198 | the same view update with the corrected rule `Adopts`; a successor that was the ring successor of the old view is the ring successor of the new one |
| Routing.FingerTable.RemoveNode | chord/routing.py:200-231 | the id leaves the view and every finger slot; the successor is recomputed only if it was removed; the answer is always true |
| Routing.FingerTable.ForgetFingers | chord/routing.py:226-229 | every slot holding the id is cleared, the others kept |
| Routing.FingerTable.GetNSuccessors | chord/routing.py:263-296 | the walk computes `NSuccessors` |
| Routing.IndexOfId | chord/routing.py:263-296 | the position of the first node with the id, or the length |
| Routing.Forgotten | chord/routing.py:226-229 | a cleared slot no longer holds the id, and other slots are unchanged |
| Routing.AddNodeAsWrittenMissesWrappedNode | chord/routing.py:194-198 | on the ring {10, 50} at node 50, the rule as written does not adopt node 5, which is the new clockwise successor |
| Routing.AddNodeAsWrittenKeepsLoneSelf | chord/routing.py:194-198 | a lone node 50 whose successor is itself does not adopt node 10 under the rule as written, though 10 is then its ring successor and the corrected rule adopts it |
| Routing.Adopts | chord/routing.py:194-198 | the corrected adoption rule: no successor yet, or the new node strictly between self and the successor on the circle; `AdoptsKeepsRingSuccessor` proves it keeps the successor equal to the ring successor |
| Routing.AdoptsAsWritten | chord/routing.py:194-198 | the adoption rule as the source writes it: no successor, or an id above self and below the successor or with the successor wrapped; the two counterexample lemmas show where it differs from `Adopts` |
| Routing.AdoptsKeepsRingSuccessor | chord/routing.py:175-198 | under the corrected rule the successor after `add_node` is the ring successor of the new view |
| Routing.OwnedArc | chord/routing.py:333-372 | if q follows p on the ring, a position lies in (p, q] exactly when its successor is q |
| Storage.Lookup | chord/storage.py:259-269 | `get` finds the record exactly when the key is stored |
| Storage.Held | chord/storage.py:221-231 | the records kept for an owner, empty for an unknown owner |
| Storage.NextVersion | chord/storage.py:60-75 | a new key gets `{self: 1}`; an existing key gets its old clock with the own entry +1 and the rest unchanged, strictly after it |
| Storage.BackupReadBack | chord/storage.py:83-120 | reading back a backup just written gives it; every other owner and key reads as before |
| Storage.Absorb | chord/storage.py:433-447 | receiving yields exactly the union of the old and received keys |
| Storage.AbsorbNeverGoesBack | chord/storage.py:433-447 | no stored clock goes backwards, and afterwards no received clock is strictly after the stored one |
| Storage.AbsorbIdempotent | chord/storage.py:433-447 | receiving the same records twice changes nothing the second time |
| Storage.Taken | chord/storage.py:416-431 | the listed keys that are present, with their records |
| Storage.Kept | chord/storage.py:416-431 | the store without the listed keys |
| Storage.TransferThenReceiveRestores | chord/storage.py:416-447 | what was transferred and what stayed are disjoint, and receiving the one into the other restores the store |
| Storage.KeyInRangeIsRoutingInRange | chord/storage.py:484-511 | the storage module's range test agrees with the routing one |
| Storage.KeyInRange | chord/storage.py:484-511 | the storage module's own `in_range`, with the end always included; `KeyInRangeIsRoutingInRange` shows it is the routing test with an inclusive end |
| Storage.Drop | chord/storage.py:244-255 | the owner order loses exactly the removed owner and stays duplicate-free |
| Storage.ChordStorage.constructor | chord/storage.py:28-50 | both maps start empty |
| Storage.ChordStorage.Put | chord/storage.py:52-81 | stores and returns the given clock, or `NextVersion` of the stored one; nothing else changes |
| Storage.ChordStorage.PutBackup | chord/storage.py:83-105 | writes exactly `backup[owner][key]` with the clock untouched; the primary map and other owners are unchanged |
| Storage.ChordStorage.GetBackup | chord/storage.py:107-120 | the record kept for the owner, `None` for an unknown owner or key |
| Storage.ChordStorage.GetAllBackupsForNode | chord/storage.py:221-231 | the owner's map as a value, empty for an unknown owner |
| Storage.ChordStorage.ReceiveKeys | chord/storage.py:433-447 | the loop leaves the primary map at `Absorb` of the old one |
| Storage.ChordStorage.AcceptOne | chord/storage.py:439-446 | one record is taken iff the key is new or its clock strictly after the stored one |
| Storage.ChordStorage.TransferBackupsToPrimary | chord/storage.py:233-255 | the owner's records are absorbed into the primary map and its backup map is removed; other owners stay; an unknown owner changes nothing |
| Storage.ChordStorage.Get | chord/storage.py:259-269 | the stored record or `None` |
| Storage.ChordStorage.Delete | chord/storage.py:312-332 | true exactly when the key was present; afterwards it is absent and all else is unchanged |
| Storage.ChordStorage.DeleteBackup | chord/storage.py:334-356 | true exactly when the owner held the key; only that key goes |
| Storage.ChordStorage.TransferKeys | chord/storage.py:416-431 | hands over `Taken` and keeps `Kept` |
| Storage.ChordStorage.GetKeysInRange | chord/storage.py:397-414 | exactly the stored keys whose hash lies in the range, each once |
| Storage.ChordStorage.Clear | chord/storage.py:453-455 | the primary map becomes empty; backups stay |
| Storage.DropAbsent | chord/storage.py:244-255 | dropping an owner not listed changes nothing |
| Node.NextHop | chord/node.py:70-128 | the four `find_successor` cases: self when there is no other successor; the successor for ids in (self, successor]; self for ids in (predecessor, self]; past those, the finger of highest index on (self, id], or the successor when there is none or that finger is self |
| Node.NotifyIdempotent | chord/node.py:153-166 | notifying twice with the same node is the same as once |
| Node.NotifyRule | chord/node.py:153-166 | the predecessor `notify` leaves: the notifier when there is none or it is strictly between the predecessor and self, else the old one; `NotifyIdempotent` and `NotifyMovesCloser` state its properties |
| Node.NotifyMovesCloser | chord/node.py:153-166 | a replaced predecessor is replaced by a node strictly closer to self going clockwise |
| Node.SlotAfterNoWrap | chord/node.py:168-181 | without wrapping, k calls advance the index by k |
| Node.FixFingersVisitsEverySlot | chord/node.py:168-181 | from any index, every slot is repaired within m calls |
| Node.Refreshed | chord/node.py:306-320 | with a successor the list is headed by it; without one it is unchanged |
| Node.RefreshedIdempotent | chord/node.py:306-320 | an immediate second refresh changes nothing |
| Node.RefreshedBounded | chord/node.py:306-320 | the list never grows past `n_replicas` |
| Node.ExtendKeeps | chord/node.py:366-391 | appending unseen reply entries keeps the prefix, adds no duplicate id and never adds self |
| Node.RebuiltShape | chord/node.py:332-391 | the rebuilt list is headed by the successor, has 1 to `n_replicas` entries, unique ids, no self, and only entries from the successor, its reply or the predecessor |
| Node.SuccessorListAfter | chord/node.py:322-397 | no successor gives `[]`; a lone node gives `[predecessor]` when that is another node, else `[]`; a failed query gives `[successor]` |
| Node.Stabilized | chord/node.py:409-447 | a lone node with another node as predecessor makes it the successor |
| Node.StabilizeMovesCloser | chord/node.py:409-447 | an adopted node lies strictly between self and the old successor going clockwise |
| Node.AbsorbEachNeverGoesBack | chord/node.py:659-700 | absorbing the replies in turn never loses a key or moves a clock backwards |
| Node.ReconciledDominatesBoth | chord/node.py:774-799 | the reconciled record's clock dominates both the local and the recovered clock |
| Node.ReconcileAll | chord/node.py:774-799 | the reconciled store holds exactly the local and recovered keys |
| Node.HandoffSources | chord/node.py:723-730 | the nodes asked for hinted records come from the view or the successor list |
| Node.ChordNode.Info | chord/node.py:64-68 | the node's id and address |
| Node.ChordNode.constructor | chord/node.py:24-62 | the id is the hashed address in [0, 2^m); empty fingers, view and store; no predecessor; empty successor list |
| Node.ChordNode.FindSuccessor | chord/node.py:70-109 | computes `NextHop` on the node's own state |
| Node.ChordNode.FindClosestPrecedingNode | chord/node.py:111-128 | the closest preceding finger, else self |
| Node.ChordNode.Notify | chord/node.py:153-166 | the predecessor becomes `NotifyRule` of the old one; nothing else changes |
| Node.ChordNode.FixFingers | chord/node.py:168-181 | the index advances by one mod m before use, and only that finger slot is rewritten |
| Node.ChordNode.CreateRing | chord/node.py:209-214 | no predecessor, successor self, list `[self]` |
| Node.ChordNode.JoinRing | chord/node.py:216-231 | no predecessor, successor the known node, list `[known]` |
| Node.ChordNode.GetSuccessorList | chord/node.py:290-304 | the first n entries, with n defaulting to `n_replicas` |
| Node.ChordNode.UpdateSuccessorList | chord/node.py:306-320 | the list becomes `Refreshed` of the old one |
| Node.ChordNode.UpdateSuccessorListNetwork | chord/node.py:322-397 | the loop builds `SuccessorListAfter` of the successor's reply |
| Node.ChordNode.StabilizeNetwork | chord/node.py:399-464 | the successor becomes `Stabilized`; the node notifies its successor exactly when that is another node and the query did not raise |
| Node.ChordNode.TransferKeysOnJoin | chord/node.py:659-700 | asks its N - 1 ring successors, gets one reply per node asked, and absorbs each reply in turn |
| Node.ChordNode.RecoverHintedHandoffs | chord/node.py:704-837 | takes one reply per node in `HandoffSources`, gathers them (a later copy replaces a kept one only when strictly after it) and reconciles them into the primary map |
| Node.ChordNode.ReconcileOne | chord/node.py:774-799 | newer recovered clock overwrites; concurrent or equal stores the recovered value under the joined clock; otherwise local stays; an absent key is stored |
| Node.ChordNode.ReconcileRecovered | chord/node.py:774-799 | the loop leaves the primary map at `ReconcileAll` |
| Node.AbsorbRecords | chord/node.py:756-767 | the gather loop takes a copy only when the key is new or the copy strictly after |
| Replication.PutReplicaRequest | consistency/replication.py:106-121 | the payload's version reads back as the given clock; its primary is the given one or this node's own id |
| Replication.GetReplicaResult | consistency/replication.py:236-249 | a read counts only with a value and a non-empty version dict that parses |
| Replication.AcknowledgedSpec | consistency/replication.py:68-79 | the acknowledged replicas are an in-order subsequence of the replicas, exactly those whose reply was an 'ok' PUT_REPLICA_REPLY |
| Replication.ReplicatePut | consistency/replication.py:37-79 | one PUT_REPLICA per replica, and the acknowledged list above |
| Replication.Results | consistency/replication.py:187-253 | one parsed result per reply |
| Replication.ReadsSpec | consistency/replication.py:173-185 | the reads are the (replica, value, version) of every successful reply, in replica order |
| Replication.ReplicateGet | consistency/replication.py:146-185 | one GET_REPLICA per replica, and the reads above |
| Replication.RepairRequests | consistency/replication.py:255-282 | one repair write per stale replica carrying the chosen value and version |
| Replication.SelectReplicas | consistency/replication.py:284-301 | the first min(n, \|list\|) entries, n defaulting to `n_replicas`, with Python's slice for negative n |
| Quorum.CheckQuorum | consistency/quorum.py:67-75 | valid iff 1 <= R <= N and 1 <= W <= N, R checked first |
| Quorum.CheckQuorumAgreesWithConfig | consistency/quorum.py:67-75 | the manager and `validate_quorum` accept the same settings |
| Quorum.Versions | consistency/quorum.py:166 | the version of each read, in order |
| Quorum.Pick | consistency/quorum.py:166-174 | the corrected pick: one of the versions read, the repaired latest version or else the first one read |
| Quorum.PickAsWritten | consistency/quorum.py:166-174 | the pick as written: one of the versions read, the result of `get_latest_version` or else the first one read |
| Quorum.PickAsWrittenIsAfter | consistency/quorum.py:166-174 | when `get_latest_version` finds a version, every read holding another version happens before it |
| Quorum.PickIsNewestRead | consistency/quorum.py:166-174 | without a conflict under the repaired rule, the pick is equal to or after the version of every read |
| Quorum.PickIsNewest | consistency/quorum.py:166-174 | without a conflict the answer dominates every version read |
| Quorum.ReadAsWrittenReturnsStale | consistency/quorum.py:166-174 | as written, reads `[{1:1}, {1:2}, {1:2}]` answer the stale `{1:1}` |
| Quorum.StaleSpec | consistency/quorum.py:176-185 | the stale replicas are exactly those whose version differs from the chosen one |
| Quorum.LastValueSpec | consistency/quorum.py:176-185 | the value is that of the last read whose version equals the chosen one |
| Quorum.StaleReplicasAreBehind | consistency/quorum.py:165-185 | without a conflict every stale replica is strictly behind the chosen version |
| Quorum.QuorumManager.constructor | consistency/quorum.py:26-65 | stores the settings |
| Quorum.QuorumManager.New | consistency/quorum.py:26-65 | a manager exists exactly when the settings pass the check |
| Quorum.QuorumManager.GetConsistencyLevel | consistency/quorum.py:202-216 | STRONG iff R + W > N, MODERATE iff equal, EVENTUAL iff below |
| Quorum.QuorumManager.UpdateQuorumConfig | consistency/quorum.py:218-233 | as written: a `None` argument keeps its quorum; the new sizes stay even when the check fails, leaving the manager invalid |
| Quorum.QuorumManager.UpdateQuorumConfigChecked | consistency/quorum.py:218-233 | corrected: a rejected update changes nothing, so validity is preserved |
| Quorum.QuorumManager.QuorumPut | consistency/quorum.py:77-124 | fails with no replicas or on timeout; otherwise succeeds iff the acknowledgements reach W; the version is handed back unchanged |
| Quorum.QuorumManager.QuorumGet | consistency/quorum.py:126-200 | as written: no replicas, a timeout or fewer than R reads give no answer; otherwise the version `PickAsWritten` chooses, the value of the last read holding it, the stale replicas and the repairs when enabled; when `get_latest_version` finds a version, every stale read is before it |
| Quorum.QuorumManager.QuorumGetChecked | consistency/quorum.py:126-200 | the same outcomes with the corrected `Pick`; without a conflict the answer is equal to or after every version read, so repair never overwrites a newer version |
| Config.Classify | config.py:38-45 | exactly one label: STRONG iff R + W > N, MODERATE iff R + W = N, EVENTUAL iff R + W < N |
| Config.ValidateQuorumFor | config.py:38-53 | `valid` iff 1 <= R <= N and 1 <= W <= N |
| Config.ShippedConfigIsStrong | config.py:6-12 | the shipped N = 3, R = 2, W = 2 are valid and STRONG |
| Config.StrongQuorumsIntersect | config.py:40-41 | under R + W > N every read quorum meets every write quorum |
| Config.WeakQuorumsCanMiss | config.py:42-45 | under R + W <= N some read quorum misses some write quorum |
| Coordinator.EligibleOnly | main.py:199-201 | keeps exactly the candidates other than self and the primary |
| Coordinator.TargetsShape | main.py:195-203 | the targets exclude self and the primary, keep ring order, number at most N - 1, and fall short only when every eligible candidate is taken |
| Coordinator.SelectTargets | main.py:198-203 | the filtering loop with its early break computes `Targets` |
| Coordinator.ReplicasFor | main.py:195-207 | the successor list's first N - 1 entries are used only when no target was found |
| Coordinator.NeededRemoteAcks | main.py:212 | `max(0, W - 1)`: the local store is one of the W |
| Coordinator.HandlePut | main.py:124-275 | forwards when another node is primary and answers; otherwise stores as primary with the next clock, or as a hinted backup with the sloppy-quorum clock; succeeds iff no remote ack is needed or enough arrive; the write quorum is restored |
| Coordinator.StoreHinted | main.py:176-190 | the sloppy-quorum store: the backup held for the primary gets the record with the held clock raised at self, or `{self: 1}` when none is held; the primary map is unchanged |
| Coordinator.ChooseReplicas | main.py:192-207 | the replicas are the first N - 1 of the key's N successors other than self and the primary, or the successor list's first N - 1 when there are none |
| Coordinator.SendReplicas | main.py:209-242 | succeeds iff no remote acknowledgement is needed, or there are replicas and enough acknowledge in time; the write quorum is restored afterwards |
| Coordinator.SloppyVersionIsAfterHeldCopy | main.py:176-191 | the sloppy-quorum clock is strictly after the held copy and changes only the own entry, or is `{self: 1}` |
| Coordinator.ReplicaVersion | main.py:513-529 | the replica's clock is strictly after the incoming clock, and after the held copy's when that has no negative counter |
| Coordinator.ReplicaTwiceBumpsTwice | main.py:513-529 | receiving the same replica write twice raises the own counter once more and changes nothing else |
| Coordinator.HandlePutReplica | main.py:498-560 | an unparsable version is an error and stores nothing; otherwise the record is kept for the named primary (the sender by default) under `ReplicaVersion`, and the reply is acknowledged |
| Coordinator.StoreReplica | main.py:517-536 | the backup held for the primary gets the record with `ReplicaVersion`: the incoming clock merged with the held one and raised at self; the primary map is unchanged |
| Coordinator.ReplicaRequestIsAcknowledged | main.py:498-560 | a request built by the coordinator always parses |
| Coordinator.FirstHolderSpec | main.py:581-586 | the backup scan finds a copy iff some owner holds the key, and returns the earliest such owner's copy |
| Coordinator.ReplicaLookupSpec | main.py:570-588 | found iff the node holds the key anywhere; the primary copy first, then the hinted backup, then some backup |
| Coordinator.HandleGetReplica | main.py:562-604 | the reply carries the lookup's record and its clock as a dict, or nothing |
| Coordinator.GetReplicaRoundTrip | main.py:590-604 | the reading side gets back the record found when its clock is not empty, and nothing when none was found |
| Coordinator.HandleRecoverHandoff | main.py:857-893 | returns every record kept for the requester and afterwards keeps none for it; nothing else changes |
| Coordinator.HandleTransferKeysRequest | main.py:799-843 | exactly the primary records whose hash passes the filter; nothing is deleted |
| Coordinator.Handed | main.py:811-833 | the transfer rule: with a predecessor, a key hash on (predecessor, new node]; without one, the rough rule; `HandedIsNewNodesShare` and `RoughRuleGivesAwayOwnKeys` state what it hands over |
| Coordinator.HandedIsNewNodesShare | main.py:815-823 | with the predecessor given, a key is handed over iff the ring assigns it to the new node |
| Coordinator.RoughRuleGivesAwayOwnKeys | main.py:824-833 | without the predecessor the fallback rule can hand over a key the answering node owns |
| Coordinator.CheckArgs | main.py:1081-1087 | the start-up check fails exactly when R or W lies outside [1, N], R first, agreeing with the quorum manager and `validate_quorum` |
| Client.FirstInScanSpec | client/cli.py:149-158 | the scan stops at a listed node that comes no later than any other |
| Client.GetResponsibleNode | client/cli.py:132-158 | `get_responsible_node`: `None` without ring information or nodes, else the first node of the id-sorted list at or after the key, wrapping to the first; `GetResponsibleNodeSpec` and `ClientAgreesWithRing` characterise it |
| Client.GetResponsibleNodeSpec | client/cli.py:132-158 | `None` without ring information or nodes; otherwise a cached node: the smallest id at or after the key, else the smallest id |
| Client.ClientAgreesWithRing | client/cli.py:149-158 | on a sorted list the client's choice is the ring's successor of the key |

## Left out

- SHA-1 in `hash_key` and `hash_address` (chord/storage.py:461-481, chord/routing.py:312-330) is the `digest` parameter, reduced modulo 2^m.
- File persistence of the store is not modelled: the save and load functions and the file removals. Only the in-memory maps are modelled.
- Networking, JSON framing, asyncio tasks, timeouts and logging are not modelled. Replies are parameters, and a timeout is a boolean.
- Background loops, server start-up and argument parsing are not modelled. The exception is the R/W check in `main`.
- The random failure simulation in `consistency/replication.py` is not modelled.
- `find_responsible_node` in main.py is not modelled: it chases the owner over the network. `HandlePut` takes its answer as the `responsible` parameter.
- Steps 4 and 5 of `recover_hinted_handoffs` are not modelled. They push recovered records out to the replicas, which is network I/O.
- The content of the NOTIFY message sent by `stabilize_network` is not modelled; only whether it is sent.
- Local `stabilize`, `check_predecessor`, `join`, `put`, `get`, `get_status` and the network join of `chord/node.py` are not modelled. They are outside the modelled core.
- `handle_update_backup` is not modelled. It is a plain `put_backup` of a parsed clock.
- `get_with_version`, `get_value`, `has_key`, `size` and `get_all_keys` of the store are not modelled. They are reads that the model does directly on the maps.
- VectorClocks.FromDict: accepts only canonical decimal keys. Python's `int()` also accepts a sign, leading zeros, spaces and underscores, and lets two spellings of one id collide. The model treats every such dictionary as a parse error.
- Coordinator.HandleGetReplica: a stored value is never `None`, because values are the type parameter. The source would keep searching past a record whose value is `None`.
- Coordinator.HandlePut: an exception other than those modelled does not become an error reply here. A malformed message is one such case.
- Coordinator.HandleTransferKeysRequest: returns the records with their clocks. It does not return the dictionaries the wire carries.
- Storage.ChordStorage.GetKeysInRange: the order of the returned list is not fixed. The source's order is the dictionary's insertion order.
- Routing.FingerTable.AddNode: for a known id the source updates the address on the shared `NodeInfo` object. Any finger slot, successor list entry or predecessor holding that same object sees the new address. The model replaces the entry in the view only, and the fingers keep the old address. Which slots share the object depends on aliasing, which these values do not capture. The same holds for `AddNodeChecked`.
- Routing.FingerTable.RemoveNode: the docstring says it returns false for an unknown id, but the code always returns true. The model follows the code.
- Node.ChordNode.TransferKeysOnJoin: replies arrive already parsed. A reply whose version dict fails to parse is not modelled.
- Node.ChordNode.RecoverHintedHandoffs: same as above, replies arrive already parsed.

## Findings

| source | as written | input that shows it | evidently intended | confidence | as-written member | corrected member |
|---|---|---|---|---|---|---|
| chord/routing.py:194-198 | `add_node` adopts a new node as successor only if its id is above this node's | a lone node 50 whose successor is itself adds node 10 and keeps 50; node 50 knowing {10, 50} with successor 10 adds node 5 and keeps 10; in both cases the new node comes first clockwise after 50 | adopt a node strictly between self and the successor on the circle | not executed | Routing.AddNodeAsWrittenKeepsLoneSelf | Routing.FingerTable.AddNodeChecked |
| consistency/vector_clock.py:250-270, consistency/quorum.py:166-174 | `get_latest_version` counts equal maximal versions as separate candidates and reports a conflict; `quorum_get` then falls back to the first version read | reads `[{1:1}, {1:2}, {1:2}]` answer `{1:1}`, which happens before `{1:2}` | equal versions are one candidate, so the newest version is returned | not executed | Quorum.ReadAsWrittenReturnsStale | Quorum.QuorumManager.QuorumGetChecked |
| consistency/quorum.py:218-233 | `update_quorum_config` assigns the new sizes before validating them | N = 3, update R to 5: the check raises but R stays 5 | validate first and leave the sizes unchanged on error | not executed | Quorum.QuorumManager.UpdateQuorumConfig | Quorum.QuorumManager.UpdateQuorumConfigChecked |
