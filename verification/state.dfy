/** The node-local PBFT consensus state (src/node/state.rs): phase cycle,
    mode, cached role, membership map and fault bound, working block. */
module State {
  import opened Wrappers
  import opened MessageType

  /** Rust's `u64`. */
  type u64 = x: int | 0 <= x < 0x1_0000_0000_0000_0000

  /** Transport-level peer identifier: opaque bytes. */
  type PeerId = seq<bv8>

  /** Ledger block identifier: opaque bytes. */
  type BlockId = seq<bv8>

  /** A candidate block; only its block id matters to the state. */
  datatype PbftBlock = PbftBlock(blockId: BlockId)

  /** The view-change timer. Only the configured duration is kept: the
      wall-clock part is not modelled. */
  datatype Timeout = Timeout(duration: nat)

  /** The start-up configuration: `(peer id, node id)` pairs and the
      view-change timeout. */
  datatype PbftConfig = PbftConfig(peers: seq<(PeerId, u64)>, viewChangeTimeout: nat)

  /** Errors of the state's operations. */
  datatype PbftError = NodeNotFound

  datatype PbftNodeRole = Primary | Secondary

  /** Stages of one consensus round, in declaration (and `PartialOrd`) order. */
  datatype PbftPhase = NotStarted | PrePreparing | Preparing | Checking | Committing | Finished

  datatype PbftMode = Normal | ViewChanging | Checkpointing

  /** The block under agreement: none, an id seen in a `BlockNew` update
      but not yet given a sequence number, or the full block. */
  datatype WorkingBlockOption =
    | NoWorkingBlock
    | TentativeWorkingBlock(blockId: BlockId)
    | WorkingBlock(block: PbftBlock)

  /** `is_none`: there is no working block at all. */
  predicate IsNone(w: WorkingBlockOption)
  {
    w == NoWorkingBlock
  }

  /** `is_some`: the full block is bound; a tentative block id does not count. */
  predicate IsSome(w: WorkingBlockOption)
  {
    w.WorkingBlock?
  }

  /** Exactly one of: no working block, a tentative one, a bound one. */
  lemma WorkingBlockTrichotomy(w: WorkingBlockOption)
    ensures IsNone(w) <==> !IsSome(w) && !w.TentativeWorkingBlock?
    ensures IsSome(w) <==> !IsNone(w) && !w.TentativeWorkingBlock?
    ensures w.TentativeWorkingBlock? <==> !IsNone(w) && !IsSome(w)
  {
  }

  datatype PbftState = PbftState(
    id: u64,
    seqNum: u64,
    view: u64,
    phase: PbftPhase,
    role: PbftNodeRole,
    mode: PbftMode,
    preCheckpointMode: PbftMode,
    networkNodeIds: map<u64, PeerId>,
    f: nat,
    timeout: Timeout,
    workingBlock: WorkingBlockOption)

  // ---------------------------------------------------------------------
  // Membership and construction

  /** The distinct node ids named by a configuration. */
  function NodeIds(peers: seq<(PeerId, u64)>): set<u64>
  {
    set i | 0 <= i < |peers| :: peers[i].1
  }

  /** Entry `i` is the last one in the configuration for its node id. */
  ghost predicate LastFor(peers: seq<(PeerId, u64)>, i: int)
    requires 0 <= i < |peers|
  {
    forall j :: i < j < |peers| ==> peers[j].1 != peers[i].1
  }

  /** Collects `(peer id, node id)` pairs into a map keyed by node id, the
      way a `HashMap` is collected: entries are inserted in order, so a later
      entry for a node id replaces an earlier one. */
  function BuildNodeIdMap(peers: seq<(PeerId, u64)>): (m: map<u64, PeerId>)
    ensures m.Keys == NodeIds(peers)
  {
    if |peers| == 0 then map[]
    else
      var init := peers[..|peers| - 1];
      var last := peers[|peers| - 1];
      NodeIdsSnoc(peers);
      BuildNodeIdMap(init)[last.1 := last.0]
  }

  /** The node ids of a configuration are those before its last entry plus
      the last entry's. */
  lemma NodeIdsSnoc(peers: seq<(PeerId, u64)>)
    requires |peers| > 0
    ensures NodeIds(peers) == NodeIds(peers[..|peers| - 1]) + {peers[|peers| - 1].1}
  {
  }

  /** Each node id maps to the peer id of its last configuration entry. */
  ghost predicate LastEntriesWin(peers: seq<(PeerId, u64)>, m: map<u64, PeerId>)
  {
    forall i :: 0 <= i < |peers| && LastFor(peers, i) ==> peers[i].1 in m && m[peers[i].1] == peers[i].0
  }

  /** Every value of the map is the peer id of an entry for its node id. */
  ghost predicate ValuesFromEntries(peers: seq<(PeerId, u64)>, m: map<u64, PeerId>)
  {
    forall k :: k in m ==> exists i :: 0 <= i < |peers| && peers[i].1 == k && m[k] == peers[i].0
  }

  /** In the collected map the last configuration entry for a node id wins,
      and every value comes from an entry for that node id. */
  lemma {:induction false} BuildNodeIdMapEntries(peers: seq<(PeerId, u64)>)
    ensures LastEntriesWin(peers, BuildNodeIdMap(peers))
    ensures ValuesFromEntries(peers, BuildNodeIdMap(peers))
  {
    if |peers| > 0 {
      var init := peers[..|peers| - 1];
      var last := peers[|peers| - 1];
      var m0 := BuildNodeIdMap(init);
      var m := BuildNodeIdMap(peers);
      assert m == m0[last.1 := last.0];
      BuildNodeIdMapEntries(init);
      forall i | 0 <= i < |peers| && LastFor(peers, i) ensures m[peers[i].1] == peers[i].0 {
        if i < |init| {
          assert peers[i].1 != last.1;
          assert LastFor(init, i) by {
            forall j | i < j < |init| ensures init[j].1 != init[i].1 {
              assert init[j] == peers[j] && init[i] == peers[i];
            }
          }
          assert init[i] == peers[i];
        }
      }
      forall k | k in m ensures exists i :: 0 <= i < |peers| && peers[i].1 == k && m[k] == peers[i].0 {
        if k != last.1 {
          var i :| 0 <= i < |init| && init[i].1 == k && m0[k] == init[i].0;
          assert peers[i] == init[i];
        } else {
          assert peers[|peers| - 1].1 == k && m[k] == peers[|peers| - 1].0;
        }
      }
    }
  }

  /** `PbftState::new`: a fresh state for node `id`. An empty configuration
      is excluded: there `peer_id_map.len() - 1` underflows. */
  function New(id: u64, config: PbftConfig): (s: PbftState)
    requires |config.peers| > 0
    ensures s.id == id && s.seqNum == 0 && s.view == 0
    ensures s.phase == NotStarted
    ensures s.mode == Normal && s.preCheckpointMode == Normal
    ensures s.workingBlock == NoWorkingBlock
    ensures IsPrimary(s) <==> id == 0
    ensures s.networkNodeIds.Keys == NodeIds(config.peers)
    ensures s.f == (|NodeIds(config.peers)| - 1) / 3
    ensures s.timeout.duration == config.viewChangeTimeout
  {
    var peerIdMap := BuildNodeIdMap(config.peers);
    assert config.peers[0].1 in peerIdMap;
    var f := (|peerIdMap| - 1) / 3;
    PbftState(
      id := id,
      seqNum := 0,
      view := 0,
      phase := NotStarted,
      role := if id == 0 then Primary else Secondary,
      mode := Normal,
      preCheckpointMode := Normal,
      networkNodeIds := peerIdMap,
      f := f,
      timeout := Timeout(config.viewChangeTimeout),
      workingBlock := NoWorkingBlock)
  }

  /** The fault bound is the largest `f` with `3f + 1 <= n`: one to three
      members tolerate no fault, four tolerate one. */
  lemma FaultBound(id: u64, config: PbftConfig)
    requires |config.peers| > 0
    ensures var n := |NodeIds(config.peers)|;
      var f := New(id, config).f;
      && 3 * f + 1 <= n < 3 * (f + 1) + 1
      && (n <= 3 ==> f == 0)
      && (n == 4 ==> f == 1)
  {
    assert config.peers[0].1 in NodeIds(config.peers);
  }

  /** No two node ids map to the same peer id. */
  ghost predicate Injective(m: map<u64, PeerId>)
  {
    forall a, b :: a in m && b in m && m[a] == m[b] ==> a == b
  }

  /** No two configuration entries share a peer id. */
  ghost predicate DistinctPeers(peers: seq<(PeerId, u64)>)
  {
    forall i, j :: 0 <= i < j < |peers| ==> peers[i].0 != peers[j].0
  }

  /** Every configuration entry is followed, at or after it, by the last
      entry for the same node id. */
  lemma {:induction false} LastEntryExists(peers: seq<(PeerId, u64)>, j: int)
    requires 0 <= j < |peers|
    ensures exists l :: j <= l < |peers| && peers[l].1 == peers[j].1 && LastFor(peers, l)
    decreases |peers| - j
  {
    if !LastFor(peers, j) {
      var j' :| j < j' < |peers| && peers[j'].1 == peers[j].1;
      LastEntryExists(peers, j');
    }
  }

  /** With distinct peer ids in the configuration no two members share a
      peer id. */
  lemma DistinctPeersInjective(peers: seq<(PeerId, u64)>, m: map<u64, PeerId>)
    requires DistinctPeers(peers)
    requires ValuesFromEntries(peers, m)
    ensures Injective(m)
  {
  }

  /** With distinct peer ids in the configuration, a configured peer id is a
      member exactly when its entry was not overwritten by a later entry for
      the same node id. */
  lemma DistinctPeersMembership(peers: seq<(PeerId, u64)>, m: map<u64, PeerId>, i: int)
    requires DistinctPeers(peers)
    requires LastEntriesWin(peers, m) && ValuesFromEntries(peers, m)
    requires 0 <= i < |peers|
    ensures peers[i].0 in m.Values <==> LastFor(peers, i)
  {
    if LastFor(peers, i) {
      assert peers[i].1 in m && m[peers[i].1] == peers[i].0;
    } else {
      var j' :| i < j' < |peers| && peers[j'].1 == peers[i].1;
      LastEntryExists(peers, j');
      var l :| j' <= l < |peers| && peers[l].1 == peers[i].1 && LastFor(peers, l);
      forall k | k in m ensures m[k] != peers[i].0 {
        OverwrittenPeerAbsent(peers, m, i, l, k);
      }
    }
  }

  /** The peer id of entry `i`, overwritten by the later entry `l`, is not
      the value of member `k`. */
  lemma OverwrittenPeerAbsent(peers: seq<(PeerId, u64)>, m: map<u64, PeerId>, i: int, l: int, k: u64)
    requires DistinctPeers(peers)
    requires LastEntriesWin(peers, m) && ValuesFromEntries(peers, m)
    requires 0 <= i < l < |peers| && peers[l].1 == peers[i].1 && LastFor(peers, l)
    requires k in m
    ensures m[k] != peers[i].0
  {
  }

  // ---------------------------------------------------------------------
  // Queries

  /** The kind of message expected or sent in the current phase. */
  function CheckMsgType(s: PbftState): (k: PbftMessageType)
    ensures k == Unset <==> s.phase == NotStarted || s.phase == Finished
    ensures s.phase == Preparing || s.phase == Checking ==> k == Prepare
    ensures k != Unset ==> IsMulticast(k)
  {
    match s.phase
    case PrePreparing => PrePrepare
    case Preparing => Prepare
    case Checking => Prepare
    case Committing => Commit
    case _ => Unset
  }

  /** What a reverse lookup of `peerId` may return: `NodeNotFound` exactly
      when no member has that peer id, and otherwise some member that has
      it. Which one is left open, as the Rust `HashMap` iteration order
      is unspecified. */
  ghost predicate LookupSpec(m: map<u64, PeerId>, peerId: PeerId, r: Result<u64, PbftError>)
  {
    && (r.Err? <==> peerId !in m.Values)
    && (r.Err? ==> r.error == NodeNotFound)
    && (r.Ok? ==> r.value in m && m[r.value] == peerId)
  }

  /** `get_node_id_from_bytes`: reverse lookup of a peer id. The members are
      visited in an arbitrary order, the matching node ids collected, and the
      first of them returned. */
  method GetNodeIdFromBytes(s: PbftState, peerId: PeerId) returns (r: Result<u64, PbftError>)
    ensures LookupSpec(s.networkNodeIds, peerId, r)
    ensures Injective(s.networkNodeIds) ==>
      forall k :: k in s.networkNodeIds && s.networkNodeIds[k] == peerId ==> r == Ok(k)
  {
    var m := s.networkNodeIds;
    var matching: seq<u64> := [];
    var remaining := m.Keys;
    while remaining != {}
      invariant remaining <= m.Keys
      invariant forall j :: 0 <= j < |matching| ==> matching[j] in m && m[matching[j]] == peerId
      invariant forall k :: k in m && k !in remaining && m[k] == peerId ==> k in matching
      decreases remaining
    {
      var k :| k in remaining;
      if m[k] == peerId {
        matching := matching + [k];
      }
      remaining := remaining - {k};
    }
    if |matching| < 1 {
      r := Err(NodeNotFound);
    } else {
      r := Ok(matching[0]);
    }
  }

  /** With distinct configured peer ids, looking up the peer id of an entry
      that was not overwritten gives back its node id, and the peer id of an
      overwritten entry is not found. */
  lemma ConfiguredPeerRoundTrip(id: u64, config: PbftConfig, i: int, r: Result<u64, PbftError>)
    requires |config.peers| > 0
    requires DistinctPeers(config.peers)
    requires 0 <= i < |config.peers|
    requires LookupSpec(New(id, config).networkNodeIds, config.peers[i].0, r)
    ensures LastFor(config.peers, i) ==> r == Ok(config.peers[i].1)
    ensures !LastFor(config.peers, i) ==> r == Err(NodeNotFound)
  {
    var peers := config.peers;
    var m := BuildNodeIdMap(peers);
    assert New(id, config).networkNodeIds == m;
    BuildNodeIdMapEntries(peers);
    DistinctPeersInjective(peers, m);
    DistinctPeersMembership(peers, m, i);
    if LastFor(peers, i) {
      assert peers[i].1 in m && m[peers[i].1] == peers[i].0;
      assert r.Ok? && r.value in m && m[r.value] == peers[i].0;
    }
  }

  /** A peer id that no configuration entry carries is never found. */
  lemma UnconfiguredPeerNotFound(id: u64, config: PbftConfig, peerId: PeerId, r: Result<u64, PbftError>)
    requires |config.peers| > 0
    requires forall i :: 0 <= i < |config.peers| ==> config.peers[i].0 != peerId
    requires LookupSpec(New(id, config).networkNodeIds, peerId, r)
    ensures r == Err(NodeNotFound)
  {
    BuildNodeIdMapEntries(config.peers);
  }

  /** This node's own peer id; `get_own_peer_id` panics when `id` is not a member. */
  function GetOwnPeerId(s: PbftState): (p: PeerId)
    requires s.id in s.networkNodeIds
    ensures p in s.networkNodeIds.Values
  {
    s.networkNodeIds[s.id]
  }

  /** Right after construction a node's own peer id is the one of the last
      configuration entry for its node id. */
  lemma OwnPeerIdAfterNew(id: u64, config: PbftConfig, i: int)
    requires 0 <= i < |config.peers| && config.peers[i].1 == id && LastFor(config.peers, i)
    ensures id in New(id, config).networkNodeIds
    ensures GetOwnPeerId(New(id, config)) == config.peers[i].0
  {
    BuildNodeIdMapEntries(config.peers);
  }

  /** The node id of the primary of view `v` in a network of `n` nodes. */
  function PrimaryNodeId(v: u64, n: nat): (k: u64)
    requires n > 0
    ensures k < n && k <= v
    ensures v < n ==> k == v
  {
    v % n
  }

  /** The primary rotates through the membership: view `v` has the same
      primary as view `v - n`, so view `n` goes back to node 0. */
  lemma PrimaryRotates(v: u64, n: nat)
    requires n > 0 && v >= n
    ensures PrimaryNodeId(v, n) == PrimaryNodeId((v - n) as u64, n)
  {
    ModAddPeriod(v - n, n);
  }

  /** Adding the modulus does not change the remainder. */
  lemma ModAddPeriod(a: nat, n: nat)
    requires n > 0
    ensures (a + n) % n == a % n
  {
    var q, r := a / n, a % n;
    var q', r' := (a + n) / n, (a + n) % n;
    assert a + n == (q + 1) * n + r;
    assert a + n == q' * n + r';
    var d := q + 1 - q';
    assert d * n == r' - r;
    if d >= 1 {
      MulAtLeast(d, n);
    } else if d <= -1 {
      MulAtMost(d, n);
    }
  }

  lemma MulAtLeast(d: int, n: nat)
    requires d >= 1
    ensures d * n >= n
  {
    assert d * n == (d - 1) * n + n;
  }

  lemma MulAtMost(d: int, n: nat)
    requires d <= -1
    ensures d * n + n <= 0
  {
    assert d * n == (d + 1) * n - n;
  }

  /** The primary's peer id for the current view; `get_primary_peer_id` panics on an
      empty map (modulo by zero) and on a missing key. */
  function GetPrimaryPeerId(s: PbftState): (p: PeerId)
    requires |s.networkNodeIds| > 0
    requires PrimaryNodeId(s.view, |s.networkNodeIds|) in s.networkNodeIds
    ensures p in s.networkNodeIds.Values
  {
    s.networkNodeIds[PrimaryNodeId(s.view, |s.networkNodeIds|)]
  }

  /** The node ids are exactly `0 .. n-1`. */
  ghost predicate DenseIds(m: map<u64, PeerId>)
  {
    forall k: u64 :: k in m <==> k < |m|
  }

  /** With node ids `0 .. n-1` the primary's peer id is defined in every
      view and is the one of node `view mod n`; in views `0 .. n-1` that is
      node `view` itself. */
  lemma PrimaryOfView(s: PbftState)
    requires |s.networkNodeIds| > 0 && DenseIds(s.networkNodeIds)
    ensures PrimaryNodeId(s.view, |s.networkNodeIds|) in s.networkNodeIds
    ensures GetPrimaryPeerId(s) == s.networkNodeIds[s.view % |s.networkNodeIds|]
    ensures s.view < |s.networkNodeIds| ==> GetPrimaryPeerId(s) == s.networkNodeIds[s.view]
  {
    var k := PrimaryNodeId(s.view, |s.networkNodeIds|);
    assert k < |s.networkNodeIds|;
    assert k in s.networkNodeIds;
  }

  // ---------------------------------------------------------------------
  // Role

  /** `is_primary`: the cached role, not recomputed from the view. */
  predicate IsPrimary(s: PbftState)
  {
    s.role == Primary
  }

  /** Make this node primary; nothing else changes. */
  function UpgradeRole(s: PbftState): (t: PbftState)
    ensures IsPrimary(t)
    ensures t.(role := s.role) == s
  {
    s.(role := Primary)
  }

  /** Make this node secondary; nothing else changes. */
  function DowngradeRole(s: PbftState): (t: PbftState)
    ensures !IsPrimary(t)
    ensures t.(role := s.role) == s
  {
    s.(role := Secondary)
  }

  /** The cached role agrees with the node id of the current view's primary. */
  ghost predicate RoleInSync(s: PbftState)
    requires |s.networkNodeIds| > 0
  {
    IsPrimary(s) <==> s.id == PrimaryNodeId(s.view, |s.networkNodeIds|)
  }

  /** A fresh state's role is in sync with view 0. */
  lemma RoleInSyncAfterNew(id: u64, config: PbftConfig)
    requires |config.peers| > 0
    ensures RoleInSync(New(id, config))
  {
    assert config.peers[0].1 in New(id, config).networkNodeIds;
  }

  /** After a view change, the upgrade or downgrade matching the new view's
      primary brings the cached role back in sync. */
  lemma ResyncRole(s: PbftState)
    requires |s.networkNodeIds| > 0
    ensures s.id == PrimaryNodeId(s.view, |s.networkNodeIds|) ==> RoleInSync(UpgradeRole(s))
    ensures s.id != PrimaryNodeId(s.view, |s.networkNodeIds|) ==> RoleInSync(DowngradeRole(s))
  {
  }

  /** Among nodes that share a view and a membership and whose roles are in
      sync, at most one is primary. */
  lemma UniquePrimary(s: PbftState, t: PbftState)
    requires |s.networkNodeIds| > 0
    requires s.networkNodeIds == t.networkNodeIds && s.view == t.view
    requires RoleInSync(s) && RoleInSync(t)
    requires IsPrimary(s) && IsPrimary(t)
    ensures s.id == t.id
  {
  }

  /** Upgrading and downgrading are idempotent, and the later one wins. */
  lemma RoleUpdatesAbsorb(s: PbftState)
    ensures UpgradeRole(UpgradeRole(s)) == UpgradeRole(s)
    ensures DowngradeRole(DowngradeRole(s)) == DowngradeRole(s)
    ensures DowngradeRole(UpgradeRole(s)) == DowngradeRole(s)
    ensures UpgradeRole(DowngradeRole(s)) == UpgradeRole(s)
  {
  }

  // ---------------------------------------------------------------------
  // Phase cycle

  /** Position of a phase in the cycle (its declaration order). */
  function PhaseIndex(p: PbftPhase): (i: nat)
    ensures i < 6
  {
    match p
    case NotStarted => 0
    case PrePreparing => 1
    case Preparing => 2
    case Checking => 3
    case Committing => 4
    case Finished => 5
  }

  lemma PhaseIndexInjective(p: PbftPhase, q: PbftPhase)
    ensures PhaseIndex(p) == PhaseIndex(q) <==> p == q
  {
  }

  /** `switch_phase`: move to `desired` if it is the single successor of the
      current phase in the cycle, returning it; otherwise refuse with `None`
      and leave the state alone. */
  function SwitchPhase(s: PbftState, desired: PbftPhase): (r: (PbftState, Option<PbftPhase>))
    ensures r.1.Some? <==> PhaseIndex(desired) == (PhaseIndex(s.phase) + 1) % 6
    ensures r.1.Some? ==> r.1 == Some(desired) && r.0 == s.(phase := desired)
    ensures r.1.None? ==> r.0 == s
  {
    var next := match s.phase
      case NotStarted => PrePreparing
      case PrePreparing => Preparing
      case Preparing => Checking
      case Checking => Committing
      case Committing => Finished
      case Finished => NotStarted;
    if desired == next then (s.(phase := desired), Some(desired))
    else (s, None)
  }

  /** A call that just succeeded fails when repeated, and changes nothing. */
  lemma SwitchPhaseRepeatRefused(s: PbftState, desired: PbftPhase)
    requires SwitchPhase(s, desired).1.Some?
    ensures SwitchPhase(SwitchPhase(s, desired).0, desired) == (SwitchPhase(s, desired).0, None)
  {
  }

  /** A successful switch never skips a phase, and the only step back is
      `Finished` to `NotStarted`. Asking for the current phase is refused. */
  lemma SwitchPhaseSteps(s: PbftState, desired: PbftPhase)
    ensures SwitchPhase(s, desired).1.Some? ==>
      || PhaseIndex(desired) == PhaseIndex(s.phase) + 1
      || (s.phase == Finished && desired == NotStarted)
    ensures SwitchPhase(s, s.phase) == (s, None)
  {
  }

  /** Applies the requests in order, collecting what each call returned. */
  function Run(s: PbftState, ds: seq<PbftPhase>): (r: (PbftState, seq<Option<PbftPhase>>))
    ensures |r.1| == |ds|
    decreases |ds|
  {
    if |ds| == 0 then (s, [])
    else
      var (s1, o) := SwitchPhase(s, ds[0]);
      var (s2, os) := Run(s1, ds[1..]);
      (s2, [o] + os)
  }

  /** The number of calls that succeeded. */
  function Successes(os: seq<Option<PbftPhase>>): (c: nat)
    ensures c <= |os|
  {
    if |os| == 0 then 0
    else (if os[0].Some? then 1 else 0) + Successes(os[1..])
  }

  /** Any sequence of requests advances the phase by one cycle step per
      successful call and changes nothing but the phase. */
  lemma {:induction false} RunAdvances(s: PbftState, ds: seq<PbftPhase>)
    ensures PhaseIndex(Run(s, ds).0.phase) == (PhaseIndex(s.phase) + Successes(Run(s, ds).1)) % 6
    ensures Run(s, ds).0 == s.(phase := Run(s, ds).0.phase)
    decreases |ds|
  {
    if |ds| > 0 {
      var (s1, o) := SwitchPhase(s, ds[0]);
      RunAdvances(s1, ds[1..]);
      var os := Run(s1, ds[1..]).1;
      assert Run(s, ds).1 == [o] + os;
      assert ([o] + os)[1..] == os;
    }
  }

  /** Six successful switches in a row bring the state back to where it
      started. */
  lemma SixSwitchesCycle(s: PbftState, ds: seq<PbftPhase>)
    requires |ds| == 6
    requires forall i :: 0 <= i < 6 ==> Run(s, ds).1[i].Some?
    ensures Run(s, ds).0 == s
  {
    var os := Run(s, ds).1;
    RunAdvances(s, ds);
    AllSuccesses(os);
    PhaseIndexInjective(Run(s, ds).0.phase, s.phase);
  }

  lemma {:induction false} AllSuccesses(os: seq<Option<PbftPhase>>)
    requires forall i :: 0 <= i < |os| ==> os[i].Some?
    ensures Successes(os) == |os|
  {
    if |os| > 0 {
      AllSuccesses(os[1..]);
    }
  }

  /** Walking the cycle from `NotStarted`, every switch succeeds and the
      expected message kinds are none, pre-prepare, prepare, prepare, commit,
      none. */
  lemma ExpectedKindsAlongCycle(s: PbftState)
    requires s.phase == NotStarted
    ensures var r1 := SwitchPhase(s, PrePreparing);
      var r2 := SwitchPhase(r1.0, Preparing);
      var r3 := SwitchPhase(r2.0, Checking);
      var r4 := SwitchPhase(r3.0, Committing);
      var r5 := SwitchPhase(r4.0, Finished);
      && r1.1.Some? && r2.1.Some? && r3.1.Some? && r4.1.Some? && r5.1.Some?
      && [CheckMsgType(s), CheckMsgType(r1.0), CheckMsgType(r2.0), CheckMsgType(r3.0),
          CheckMsgType(r4.0), CheckMsgType(r5.0)]
         == [Unset, PrePrepare, Prepare, Prepare, Commit, Unset]
  {
  }
}
