/** The decisions of the peer group that are pure functions of its tables:
    the collision tie-break, the merge of a gossip batch into the
    reported-peer pool, the purge bound, the choice of a connection to evict
    and the broadcast target filter. The class Peers.PeerGroup applies them. */
module PeerRules {
  import opened Wrappers
  import opened Network

  /** Size cap of the reported-peer pool. */
  const MaxReportedPeers: nat := 1000

  // ---------------------------------------------------------------------
  // Lists and random choice
  // ---------------------------------------------------------------------

  predicate Distinct<T(==)>(s: seq<T>) {
    forall i, j :: 0 <= i < j < |s| ==> s[i] != s[j]
  }

  /** `list.remove(i)` on a Java list. */
  function RemoveAt<T(==)>(s: seq<T>, i: nat): (r: seq<T>)
    requires i < |s|
    ensures |r| == |s| - 1
    ensures forall x :: x in r ==> x in s
    ensures Distinct(s) ==> Distinct(r) && s[i] !in r && forall x :: x in s && x != s[i] ==> x in r
  {
    var r := s[..i] + s[i + 1..];
    assert forall k :: 0 <= k < |r| ==> r[k] == if k < i then s[k] else s[k + 1];
    assert forall x :: x in s && x != s[i] ==> x in r by {
      forall x | x in s && x != s[i] ensures x in r {
        var k :| 0 <= k < |s| && s[k] == x;
        if k < i { assert r[k] == x; } else { assert r[k - 1] == x; }
      }
    }
    r
  }

  /** `list.remove(new Random().nextInt(list.size()))`: removes and returns
      the element at an arbitrary valid index. The list must not be empty. */
  method RemoveRandom<T(==)>(list: seq<T>) returns (x: T, rest: seq<T>)
    requires |list| > 0
    ensures x in list && |rest| == |list| - 1
    ensures exists i :: 0 <= i < |list| && x == list[i] && rest == RemoveAt(list, i)
  {
    var i :| 0 <= i < |list|;
    x, rest := list[i], RemoveAt(list, i);
  }

  /** `new ArrayList<>(set)`: the elements of a set, once each, in an
      arbitrary order. */
  method ListOf<T(==)>(s: set<T>) returns (xs: seq<T>)
    ensures Distinct(xs) && |xs| == |s|
    ensures forall x :: x in xs <==> x in s
  {
    xs := [];
    var rest := s;
    while rest != {}
      invariant rest <= s && Distinct(xs) && |xs| + |rest| == |s|
      invariant forall x :: x in xs <==> x in s && x !in rest
      decreases |rest|
    {
      var x :| x in rest;
      xs := xs + [x];
      rest := rest - {x};
    }
  }

  // ---------------------------------------------------------------------
  // Collision tie-break
  // ---------------------------------------------------------------------

  /** What a node does with an incoming authentication request from an
      address it is already handshaking with. */
  datatype CollisionResolution =
    | RejectIncoming   // keep the own handshake, send a rejection
    | AcceptIncoming   // cancel the own handshake, answer the request

  function ResolveCollision(myHash: int, peerHash: int): CollisionResolution {
    if myHash < peerHash then RejectIncoming else AcceptIncoming
  }

  /** Two nodes with different address hashes that request each other at the
      same time take opposite decisions: exactly one keeps its own handshake. */
  lemma CollisionKeepsExactlyOneSide(hashA: int, hashB: int)
    requires hashA != hashB
    ensures (ResolveCollision(hashA, hashB) == RejectIncoming) != (ResolveCollision(hashB, hashA) == RejectIncoming)
    ensures (ResolveCollision(hashA, hashB) == RejectIncoming) <==> hashA < hashB
  {
  }

  /** The comparison is strict: when both hashes are equal neither side keeps
      its own handshake, both cancel and answer the other's request. */
  lemma EqualHashesBothCancel(hashA: int, hashB: int)
    requires hashA == hashB
    ensures ResolveCollision(hashA, hashB) == AcceptIncoming && ResolveCollision(hashB, hashA) == AcceptIncoming
  {
  }

  // ---------------------------------------------------------------------
  // Merging a gossip batch into the reported-peer pool
  // ---------------------------------------------------------------------

  /** Java's `/ 2` on a long, which rounds toward zero (Dafny's `/` rounds
      down for negative operands). */
  function HalfTowardZero(x: int): (r: int)
    ensures x >= 0 ==> 0 <= x - 2 * r <= 1
    ensures x < 0 ==> 0 <= 2 * r - x <= 1
  {
    if x >= 0 then x / 2 else -((-x) / 2)
  }

  /** The adjusted timestamp `(reported + stored) / 2` of an address that is
      already in the pool: it lies between the two and is their mean up to
      the rounding of the division. */
  function Midpoint(a: int, b: int): (r: int)
    ensures (if a <= b then a else b) <= r <= (if a <= b then b else a)
    ensures -1 <= a + b - 2 * r <= 1
  {
    HalfTowardZero(a + b)
  }

  /** The filters of the merge: never this node, never a known seed node,
      never an address that is already authenticated. */
  function Admissible(address: Address, myAddress: Address, seedNodes: Option<set<Address>>,
                      authenticated: set<Address>): (r: bool)
    ensures r <==> address !in {myAddress} + authenticated + (if seedNodes.Some? then seedNodes.value else {})
  {
    && address != myAddress
    && (seedNodes.None? || address !in seedNodes.value)
    && address !in authenticated
  }

  /** The records of a batch that pass the filters, with the timestamp of an
      address already in the pool replaced by the midpoint. */
  function AdjustedReports(batch: PeerRecords, pool: PeerRecords, myAddress: Address,
                           seedNodes: Option<set<Address>>, authenticated: set<Address>): (r: PeerRecords)
    ensures forall a :: a in r <==> a in batch && Admissible(a, myAddress, seedNodes, authenticated)
    ensures forall a :: a in r && a !in pool ==> r[a] == batch[a]
    ensures forall a :: a in r && a in pool ==>
              (if batch[a] <= pool[a] then batch[a] <= r[a] <= pool[a] else pool[a] <= r[a] <= batch[a])
  {
    map a | a in batch && Admissible(a, myAddress, seedNodes, authenticated) ::
      if a in pool then Midpoint(batch[a], pool[a]) else batch[a]
  }

  /** `HashSet.addAll` on records equal by address: a record whose address is
      already present does not replace the stored one. */
  function AddAll(pool: PeerRecords, additions: PeerRecords): (r: PeerRecords)
    ensures r.Keys == pool.Keys + additions.Keys
    ensures forall a :: a in pool ==> r[a] == pool[a]
    ensures forall a :: a in additions && a !in pool ==> r[a] == additions[a]
  {
    additions + pool
  }

  /** The pool after a batch is merged and before it is purged. */
  function MergeReports(pool: PeerRecords, batch: PeerRecords, myAddress: Address,
                        seedNodes: Option<set<Address>>, authenticated: set<Address>): (r: PeerRecords)
    ensures pool.Keys <= r.Keys
    ensures forall a :: a in pool ==> r[a] == pool[a]
  {
    AddAll(pool, AdjustedReports(batch, pool, myAddress, seedNodes, authenticated))
  }

  /** A merge adds exactly the admissible addresses of the batch, and nothing
      equal to this node, to a known seed node or to an authenticated peer. */
  lemma MergeAddsOnlyAdmissible(pool: PeerRecords, batch: PeerRecords, myAddress: Address,
                                seedNodes: Option<set<Address>>, authenticated: set<Address>)
    ensures var merged := MergeReports(pool, batch, myAddress, seedNodes, authenticated);
      && merged.Keys == pool.Keys + set a | a in batch && Admissible(a, myAddress, seedNodes, authenticated)
      && forall a :: a in merged && a !in pool ==>
           a != myAddress && a !in authenticated && (seedNodes.Some? ==> a !in seedNodes.value)
  {
  }

  /** For an address the pool already holds, the merge computes the midpoint
      of the two timestamps as candidate, but set semantics keep the stored
      record; a new admissible address is stored with its reported time. */
  lemma MergeTimestamps(pool: PeerRecords, batch: PeerRecords, myAddress: Address,
                        seedNodes: Option<set<Address>>, authenticated: set<Address>, a: Address)
    requires a in batch && Admissible(a, myAddress, seedNodes, authenticated)
    ensures var adjusted := AdjustedReports(batch, pool, myAddress, seedNodes, authenticated);
      && a in adjusted
      && (a in pool ==> adjusted[a] == Midpoint(batch[a], pool[a]))
      && (a !in pool ==> adjusted[a] == batch[a])
    ensures var merged := MergeReports(pool, batch, myAddress, seedNodes, authenticated);
      merged[a] == if a in pool then pool[a] else batch[a]
  {
  }

  /** The merge keeps the pool's exclusions: if the pool held neither this
      node nor an authenticated address, the merged pool does not either. */
  lemma MergeKeepsExclusions(pool: PeerRecords, batch: PeerRecords, myAddress: Address,
                             seedNodes: Option<set<Address>>, authenticated: set<Address>)
    requires myAddress !in pool && pool.Keys !! authenticated
    ensures var merged := MergeReports(pool, batch, myAddress, seedNodes, authenticated);
      myAddress !in merged && merged.Keys !! authenticated
  {
  }

  // ---------------------------------------------------------------------
  // Purge of the pool
  // ---------------------------------------------------------------------

  /** `after` is what a purge may leave of `before`: records of `before`,
      unchanged, as many as the cap allows. */
  ghost predicate IsPurgeOf(after: PeerRecords, before: PeerRecords) {
    && after.Keys <= before.Keys
    && (forall a :: a in after ==> after[a] == before[a])
    && |after| == if |before| > MaxReportedPeers then MaxReportedPeers else |before|
  }

  /** A purge removes exactly `size - MaxReportedPeers` distinct records when
      the pool is over the cap and nothing at all otherwise. */
  lemma PurgeRemovesExactlyTheExcess(after: PeerRecords, before: PeerRecords)
    requires IsPurgeOf(after, before)
    ensures |before.Keys - after.Keys| == |before| - |after|
    ensures |before| > MaxReportedPeers ==> |before.Keys - after.Keys| == |before| - MaxReportedPeers
    ensures |before| <= MaxReportedPeers ==> after == before
  {
    var removed := before.Keys - after.Keys;
    assert before.Keys == removed + after.Keys;
    assert |before.Keys| == |removed| + |after.Keys|;
    if |before| <= MaxReportedPeers {
      assert removed == {};
      assert before.Keys == after.Keys;
    }
  }

  // ---------------------------------------------------------------------
  // Broadcast targets
  // ---------------------------------------------------------------------

  /** Every authenticated peer is stored under its own address. */
  ghost predicate KeyedByAddress(peers: map<Address, Peer>) {
    forall a :: a in peers ==> peers[a].address == a
  }

  /** The peers a broadcast is scheduled for: every authenticated peer whose
      address is not the (optional) sender's. */
  function BroadcastTargets(peers: map<Address, Peer>, sender: Option<Address>): set<Peer> {
    set p | p in peers.Values && sender != Some(p.address)
  }

  lemma {:induction false} ImageCount(peers: map<Address, Peer>, keys: set<Address>)
    requires KeyedByAddress(peers) && keys <= peers.Keys
    ensures |set a | a in keys :: peers[a]| == |keys|
    decreases |keys|
  {
    if keys != {} {
      var k :| k in keys;
      ImageCount(peers, keys - {k});
      var smaller := set a | a in keys - {k} :: peers[a];
      assert (set a | a in keys :: peers[a]) == smaller + {peers[k]};
      assert peers[k] !in smaller;
    }
  }

  /** With N authenticated peers a broadcast reaches N of them, or N - 1 when
      the sender is one of them; the sender never gets its message back. */
  lemma BroadcastTargetCount(peers: map<Address, Peer>, sender: Option<Address>)
    requires KeyedByAddress(peers)
    ensures |BroadcastTargets(peers, sender)| ==
            |peers| - (if sender.Some? && sender.value in peers then 1 else 0)
    ensures forall p :: p in BroadcastTargets(peers, sender) ==> sender != Some(p.address)
  {
    var keys := if sender.Some? then peers.Keys - {sender.value} else peers.Keys;
    assert BroadcastTargets(peers, sender) == set a | a in keys :: peers[a];
    ImageCount(peers, keys);
  }

  // ---------------------------------------------------------------------
  // Choice of a connection to close
  // ---------------------------------------------------------------------

  /** The three filters tried in turn. */
  datatype EvictionTier = PassiveOnly | PassiveOrActive | AllButAuthRequest

  predicate Eligible(c: ConnectionInfo, tier: EvictionTier) {
    c.authenticated &&
    match tier
    case PassiveOnly => c.priority == Passive
    case PassiveOrActive => c.priority == Passive || c.priority == Active
    case AllButAuthRequest => c.priority != AuthRequest
  }

  /** The connections that pass one tier's filter, in their original order. */
  function Candidates(cs: seq<ConnectionInfo>, tier: EvictionTier): (r: seq<ConnectionInfo>)
    ensures forall c :: c in r <==> c in cs && Eligible(c, tier)
  {
    if cs == [] then []
    else (if Eligible(cs[0], tier) then [cs[0]] else []) + Candidates(cs[1..], tier)
  }

  /** The first tier that applies and selects something: passive connections;
      when there are none and the count exceeds the normal threshold, passive
      or active ones; when there are still none and the count exceeds the
      high threshold, all but those protected by AUTH_REQUEST. */
  function EvictionCandidates(size: int, normal: int, high: int, cs: seq<ConnectionInfo>): (r: seq<ConnectionInfo>)
    ensures forall c :: c in r ==> c in cs && c.authenticated && c.priority != AuthRequest
    ensures |Candidates(cs, PassiveOnly)| > 0 ==> r == Candidates(cs, PassiveOnly)
    ensures forall c :: c in r && c.priority != Passive ==> size > normal && |Candidates(cs, PassiveOnly)| == 0
    ensures forall c :: c in r && c.priority == DirectMsg ==> size > high
    ensures |Candidates(cs, PassiveOnly)| == 0 && size <= normal ==> r == []
    ensures |Candidates(cs, PassiveOnly)| == 0 && size > normal && |Candidates(cs, PassiveOrActive)| > 0 ==>
              r == Candidates(cs, PassiveOrActive)
    ensures |Candidates(cs, PassiveOnly)| == 0 && size > normal && |Candidates(cs, PassiveOrActive)| == 0 ==>
              r == if size > high then Candidates(cs, AllButAuthRequest) else []
  {
    var passive := Candidates(cs, PassiveOnly);
    if |passive| > 0 then passive
    else if size <= normal then []
    else
      var passiveOrActive := Candidates(cs, PassiveOrActive);
      if |passiveOrActive| > 0 then passiveOrActive
      else if size <= high then []
      else Candidates(cs, AllButAuthRequest)
  }

  /** The head of the list after a stable sort by last activity: a connection
      with the oldest last-activity date, the first such one. */
  function Oldest(cs: seq<ConnectionInfo>): (r: ConnectionInfo)
    requires |cs| > 0
    ensures r in cs
    ensures forall c :: c in cs ==> r.lastActivityDate <= c.lastActivityDate
  {
    if |cs| == 1 then cs[0]
    else
      var rest := Oldest(cs[1..]);
      if cs[0].lastActivityDate <= rest.lastActivityDate then cs[0] else rest
  }

  /** The connection the peer group closes when `size` peers are
      authenticated, given the thresholds and the open connections. */
  function SelectConnectionToEvict(size: int, low: int, normal: int, high: int,
                                   cs: seq<ConnectionInfo>): (r: Option<ConnectionInfo>)
    ensures r.Some? ==> size > low
    ensures r.Some? ==> r.value in cs && r.value.authenticated && r.value.priority != AuthRequest
    ensures r.Some? ==> r.value in EvictionCandidates(size, normal, high, cs)
    ensures r.Some? ==> forall c :: c in EvictionCandidates(size, normal, high, cs) ==>
                          r.value.lastActivityDate <= c.lastActivityDate
    ensures size > low && (exists c :: c in cs && Eligible(c, PassiveOnly)) ==>
              r.Some? && r.value.priority == Passive
    ensures r.None? <==> size <= low || |EvictionCandidates(size, normal, high, cs)| == 0
  {
    if size <= low then None
    else
      var candidates := EvictionCandidates(size, normal, high, cs);
      if |candidates| > 0 then
        var oldest := Oldest(candidates);
        assert oldest in cs && Eligible(oldest, AllButAuthRequest);
        Some(oldest)
      else None
  }

  /** The last filter differs from the second only by the connections of a
      priority other than PASSIVE, ACTIVE and AUTH_REQUEST; without such
      connections it selects exactly what the second one does. */
  lemma {:induction false} LastTierAddsOnlyDirectMsg(cs: seq<ConnectionInfo>)
    ensures forall c :: c in Candidates(cs, AllButAuthRequest) <==>
                        c in Candidates(cs, PassiveOrActive) || (c in cs && c.authenticated && c.priority == DirectMsg)
    ensures (forall c :: c in cs ==> c.priority != DirectMsg) ==>
              Candidates(cs, AllButAuthRequest) == Candidates(cs, PassiveOrActive)
  {
    if cs != [] {
      LastTierAddsOnlyDirectMsg(cs[1..]);
    }
  }

  /** Hence the third tier is the only one that closes a direct-message
      connection: with no authenticated passive or active connection and the
      count above the high threshold, the oldest authenticated DirectMsg
      connection is closed; at or below it nothing is. */
  lemma LastTierClosesOnlyDirectMsg(size: int, low: int, normal: int, high: int, cs: seq<ConnectionInfo>)
    requires |Candidates(cs, PassiveOrActive)| == 0 && low <= normal <= high
    ensures size <= high ==> SelectConnectionToEvict(size, low, normal, high, cs) == None
    ensures var r := SelectConnectionToEvict(size, low, normal, high, cs);
            r.Some? ==> r.value.priority == DirectMsg && size > high
    ensures size > high && (exists c :: c in cs && c.authenticated && c.priority == DirectMsg) ==>
              SelectConnectionToEvict(size, low, normal, high, cs).Some?
  {
    LastTierAddsOnlyDirectMsg(cs);
    FirstTierWithinSecond(cs);
    if size > high && (exists c :: c in cs && c.authenticated && c.priority == DirectMsg) {
      var c :| c in cs && c.authenticated && c.priority == DirectMsg;
      assert c in Candidates(cs, AllButAuthRequest);
    }
  }

  /** Every passive connection is passive or active, so the first tier never
      selects more connections than the second. */
  lemma {:induction false} FirstTierWithinSecond(cs: seq<ConnectionInfo>)
    ensures |Candidates(cs, PassiveOnly)| <= |Candidates(cs, PassiveOrActive)|
  {
    if cs != [] {
      FirstTierWithinSecond(cs[1..]);
    }
  }
}
