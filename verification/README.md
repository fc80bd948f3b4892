# PBFT node state and message kinds — a Dafny model

This project models the node-local state of the Sawtooth PBFT consensus engine
(`src/node/state.rs`) and the enumeration of consensus message kinds it relies on
(`src/node/message_type.rs`), and proves properties of both.

- `wrappers.dfy` — `Option` and `Result` under their Rust constructor names.
- `message_type.dfy` (module `MessageType`) — the seven message kinds, the
  multicast predicate, the two-character display codes, the text classifier
  with its `Unset` fallback, and the Debug-name rendering.
- `state.dfy` (module `State`) — phases, modes, roles, the working-block option,
  the `PbftState` record and its operations: construction from a
  `(peer id, node id)` list, the fault bound `f`, the expected message kind per
  phase, reverse and forward membership lookups, role upgrade and downgrade,
  and the six-phase `switch_phase` cycle.

Mutators are pure functions that return the updated state record. Rust panics
become preconditions: indexing the map at a missing node id, and a modulo by an
empty membership. `State.New` also requires a non-empty peer list, because
`peer_id_map.len() - 1` underflows on an empty one (see "## Left out" for what a
release build does there). Peer ids and
block ids are byte sequences. A block is reduced to its block id. The reverse
lookup is a method that visits the members in an arbitrarily chosen order, as a
`HashMap` iteration does. Its contract is stated as the predicate
`State.LookupSpec`, so lemmas can reason about any result it may return.

Two facts about the Rust code shape the membership part of the model:
- `PbftState::new` collects the configuration into a map keyed by node id, and
  the last entry for an id wins. It rejects neither a repeated node id nor a
  peer id shared by two node ids. `State.DistinctPeersMembership` states what
  this means for lookups.
- `new` does not check that `id` is a member. Only `get_own_peer_id` panics
  (state.rs line 220), hence the requires of `State.GetOwnPeerId`.

## Model

| member | source | states |
|---|---|---|
| MessageType.DisplayCode | src/node/message_type.rs:36-48 | every kind displays as a code of exactly two characters |
| MessageType.DisplayCodeInjective | src/node/message_type.rs:38-46 | two kinds have the same display code only if they are the same kind |
| MessageType.IsMulticast | src/node/message_type.rs:52-59 | `is_multicast`: true for PrePrepare, Prepare and Commit and false for every other kind (both directions proved in MessageType.MulticastKinds) |
| MessageType.MulticastKinds | src/node/message_type.rs:51-59 | multicast holds exactly for PrePrepare, Prepare and Commit, and fails exactly for BlockNew, Checkpoint, ViewChange and Unset |
| MessageType.ToLabel | src/node/message_type.rs:79-83 | a kind's Debug name is one of the six recognised labels exactly when the kind is not Unset |
| MessageType.FromLabel | src/node/message_type.rs:62-76 | each of the six labels classifies to a kind other than Unset whose Debug name is that label; any other text classifies to Unset |
| MessageType.LabelRoundTrip | src/node/message_type.rs:62-83 | classifying the Debug name of any kind gives the kind back, Unset included through the fallback |
| MessageType.FromLabelInverse | src/node/message_type.rs:62-83 | text that classifies to a known kind is that kind's Debug name |
| MessageType.UnknownLabelNotMulticast | src/node/message_type.rs:52-76 | text outside the six labels never classifies to a multicast kind |
| State.IsNone | src/node/state.rs:107-109 | `is_none`: holds exactly for NoWorkingBlock (see State.WorkingBlockTrichotomy) |
| State.IsSome | src/node/state.rs:111-116 | `is_some`: holds exactly for a bound WorkingBlock, not for a tentative block id (see State.WorkingBlockTrichotomy) |
| State.WorkingBlockTrichotomy | src/node/state.rs:93-117 | exactly one of is_none, is_some and "tentative block id" holds for any working-block value |
| State.BuildNodeIdMap | src/node/state.rs:159-164 | the collected map's keys are exactly the configured node ids |
| State.BuildNodeIdMapEntries | src/node/state.rs:159-164 | each node id maps to the peer id of its last configuration entry, and every value comes from an entry with that node id |
| State.New | src/node/state.rs:158-189 | a fresh state has sequence number 0, view 0, phase NotStarted, both modes Normal, no working block, the configured timeout, membership keyed by the configured node ids, f equal to (distinct node ids - 1) / 3, and is primary exactly when its id is 0 |
| State.FaultBound | src/node/state.rs:166-167 | f is the largest value with 3f + 1 <= n; one to three members give f = 0 and four give f = 1 |
| State.LastEntryExists | src/node/state.rs:159-164 | every configuration entry is followed, at or after it, by the entry that wins for its node id |
| State.DistinctPeersInjective | src/node/state.rs:159-164 | with pairwise distinct configured peer ids, no two members of a map whose values all come from configuration entries share a peer id |
| State.DistinctPeersMembership | src/node/state.rs:159-164 | with pairwise distinct configured peer ids, in a map collected with the last entry winning, an entry's peer id is a member exactly when no later entry has the same node id |
| State.OverwrittenPeerAbsent | src/node/state.rs:159-164 | the peer id of an entry overwritten by a later entry for the same node id is the value of no member |
| State.CheckMsgType | src/node/state.rs:191-200 | the expected kind is Unset exactly in NotStarted and Finished, is Prepare in both Preparing and Checking, and is otherwise a multicast kind |
| State.ExpectedKindsAlongCycle | src/node/state.rs:192-200 | walking the phase cycle from NotStarted, the expected kinds are Unset, PrePrepare, Prepare, Prepare, Commit, Unset |
| State.GetNodeIdFromBytes | src/node/state.rs:202-217 | the lookup fails with NodeNotFound exactly when no member has the peer id, and otherwise returns a node id whose peer id it is; when peer ids are distinct it is the only such node id |
| State.ConfiguredPeerRoundTrip | src/node/state.rs:203-216 | with distinct configured peer ids, looking up an entry's peer id returns its node id if the entry was not overwritten, and NodeNotFound if it was |
| State.UnconfiguredPeerNotFound | src/node/state.rs:212-213 | a peer id carried by no configuration entry is reported as NodeNotFound |
| State.GetOwnPeerId | src/node/state.rs:219-221 | the node's own peer id is the peer id of one of the members |
| State.OwnPeerIdAfterNew | src/node/state.rs:219-221 | right after construction the own peer id is the one of the last configuration entry for the node's id |
| State.PrimaryNodeId | src/node/state.rs:224 | the primary's node id is below the member count and at most the view, and equals the view for views below the member count |
| State.PrimaryRotates | src/node/state.rs:223-226 | the primary rotates through the membership: view v has the same primary as view v - n, so view n goes back to node 0 |
| State.GetPrimaryPeerId | src/node/state.rs:223-226 | the primary's peer id is the peer id of one of the members |
| State.PrimaryOfView | src/node/state.rs:223-226 | with node ids 0 to n-1 the primary's peer id exists in every view and is the one of node view mod n, which is node view itself for views below n |
| State.UpgradeRole | src/node/state.rs:233-236 | after an upgrade the node is primary and no other field has changed |
| State.DowngradeRole | src/node/state.rs:238-241 | after a downgrade the node is not primary and no other field has changed |
| State.RoleInSyncAfterNew | src/node/state.rs:172-181 | a fresh state's role matches view 0's primary: it is primary exactly when its id is node 0 |
| State.ResyncRole | src/node/state.rs:233-241 | after a view change, the upgrade or downgrade matching the new view's primary brings the cached role back in line with the view |
| State.IsPrimary | src/node/state.rs:229-231 | `is_primary`: reads the cached role, true exactly when it is Primary (kept in sync by State.UpgradeRole, State.DowngradeRole and State.ResyncRole) |
| State.UniquePrimary | src/node/state.rs:228-231 | among nodes sharing a view and membership whose roles are in sync, at most one is primary |
| State.RoleUpdatesAbsorb | src/node/state.rs:233-241 | upgrades and downgrades are idempotent and the later of two wins |
| State.PhaseIndexInjective | src/node/state.rs:40-49 | distinct phases have distinct positions in the cycle |
| State.SwitchPhase | src/node/state.rs:243-261 | a switch succeeds exactly when the requested phase is one position after the current one, wrapping from Finished to NotStarted; it then returns the requested phase and changes only the phase; otherwise it returns None and leaves the state unchanged |
| State.SwitchPhaseRepeatRefused | src/node/state.rs:253-260 | repeating a switch that just succeeded returns None and changes nothing |
| State.SwitchPhaseSteps | src/node/state.rs:245-252 | a successful switch never skips a phase, the only step back is Finished to NotStarted, and asking for the current phase is refused |
| State.RunAdvances | src/node/state.rs:244-261 | any sequence of switch requests advances the phase by one cycle position per successful call and changes no other field |
| State.SixSwitchesCycle | src/node/state.rs:245-252 | six successful switches in a row bring the state back to where it started |

## Left out

- `Display for PbftState` (state.rs lines 58-91): the rendered text is not modelled. It uses the `hex` crate, and its slicing assumes block ids of at least three bytes.
- State.SwitchPhase: the model is total, but the Rust `switch_phase` formats the state in its `debug!` lines (state.rs lines 254 and 258). With debug logging enabled (`-vv`), that formatting slices the hex of the working block id with `[..6]` or `[..5]` and panics when the id is shorter than three bytes. Logging is not modelled, so this panic is not either.
- The `warn!` and `debug!` log lines, including the warning for `f == 0` and the one for an unknown message label.
- `Timeout`: it is kept only as the configured duration. The wall-clock timer and view-change timing belong to `node::timing`, which is not part of this model.
- `PbftConfig`: only the peer list and the view-change timeout are modelled. `node::config` is not part of this model.
- `PbftError`: only `NodeNotFound` is modelled, the one variant this code produces. `node::error` is not part of this model.
- `PbftBlock`: only its block id is modelled. The protobuf fields are left out.
- `HashMap` iteration order: the reverse lookup chooses the visiting order arbitrarily instead of following a concrete hash order.
- State.New: the model requires a non-empty peer list. In the Rust code `peer_id_map.len() - 1` on an empty list panics only when overflow checks are on (debug builds). A default release build wraps instead: `f` becomes `usize::MAX / 3` (6148914691236517205), the `f == 0` warning is skipped, and `new` returns a state with empty membership. That wrapped behaviour is not modelled.
- State.New: `f` is an unbounded natural number, not a `u64`. The cast cannot lose information, because the member count is at most the number of `u64` node ids. This bound is not proved.
- Mode excursions (saving `mode` into `pre_checkpoint_mode` and restoring it): these are direct field updates made by the consensus driver. The state itself defines no operation for them.
- The consensus driver (quorum counting, message buffering, the view-change protocol) and `src/main.rs` (command-line parsing, logging setup, engine start-up, the crashing-node variant) are process and protocol plumbing outside this component.
