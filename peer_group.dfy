/** The overlay coordinator: the authenticated-peer table, the reported-peer
    pool, the in-flight handshakes and the remaining seed nodes, and every
    operation that updates them. Calls into the transport, the handshakes,
    the listeners and the timers are returned as Effect values, in the order
    the source issues them; their outcomes come back as event methods
    (OnFirstSeedNodeAuthenticated, OnReportedPeerFailed, ..., DeliverBroadcast). */
module Peers {
  import opened Wrappers
  import opened Network
  import opened PeerRules

  /** An in-flight authentication handshake with one peer address. Its nonce
      protocol is not modelled: the peer group only creates it, asks it to
      request or to respond, cancels it and drops it. */
  class AuthenticationHandshake {
    const myAddress: Address
    const peerAddress: Address

    constructor (myAddress: Address, peerAddress: Address)
      ensures this.myAddress == myAddress && this.peerAddress == peerAddress
    {
      this.myAddress := myAddress;
      this.peerAddress := peerAddress;
    }
  }

  /** The callback that waits on a handshake's outcome. */
  datatype Purpose =
    | FirstSeedNode
    | RemainingSeedNode
    | RemainingReportedPeer
    | DirectMessagePeer

  /** A call the peer group makes into code outside this model. */
  datatype Effect =
    | SetPeerAddress(connection: Connection, address: Address)
    | SetConnectionPriority(connection: Connection, priority: ConnectionPriority)
    | SetAuthenticated(connection: Connection)
    | SendMessage(to: Address, message: Message)
    | RequestAuthentication(handshake: AuthenticationHandshake, purpose: Purpose)
    | RespondToAuthenticationRequest(handshake: AuthenticationHandshake, request: Message, connection: Connection)
    | CancelHandshake(handshake: AuthenticationHandshake)
    | AwaitHandshakeResult(handshake: AuthenticationHandshake)
    | ShutDownConnection(connection: Connection)
    | ShutDownThenRecheck(connection: Connection, minMillis: nat, maxMillis: nat)
    | NotifyPeerAuthenticated(address: Address, connection: Connection)
    | RunCompleteHandler
    | RunFaultHandler
    | RetryAfterRandomDelay(minSeconds: nat, maxSeconds: nat)
    | ScheduleBroadcast(peer: Peer, message: Message)

  /** The handshake table `after` and the effects of `authenticate(peer)`
      run on the table `before`: a new handshake is registered and asked to
      request authentication only when none exists for that address. */
  ghost predicate HandshakeStarted(before: map<Address, AuthenticationHandshake>,
                                   after: map<Address, AuthenticationHandshake>,
                                   peer: Address, purpose: Purpose, effects: seq<Effect>)
  {
    if peer in before then after == before && effects == []
    else
      && peer in after && after == before[peer := after[peer]]
      && after[peer].peerAddress == peer
      && effects == [RequestAuthentication(after[peer], purpose)]
  }

  /** The handshake table `after` and the effects of an authentication
      request from `request.senderAddress` on `connection`, handled against
      the table `before`. The connection is always tagged with the sender's
      address first. An authenticated sender only gets a rejection. A sender
      without a handshake gets exactly one new handshake, and the connection
      is protected as AUTH_REQUEST. A sender with a handshake in flight
      collides with it: the side with the smaller address hash keeps its own
      handshake and rejects, the other cancels its own handshake (dropping it
      from the table) and answers through it. */
  ghost predicate RequestHandled(myAddress: Address, myHash: int, peerHash: int, authenticated: set<Address>,
                                 before: map<Address, AuthenticationHandshake>,
                                 after: map<Address, AuthenticationHandshake>,
                                 request: Message, connection: Connection, effects: seq<Effect>)
    requires request.AuthenticationRequest?
  {
    var peer := request.senderAddress;
    var tagged := SetPeerAddress(connection, peer);
    var rejection := SendMessage(peer, AuthenticationRejection(myAddress));
    if peer in authenticated then
      after == before && effects == [tagged, rejection]
    else if peer !in before then
      && peer in after
      && after == before[peer := after[peer]]
      && effects == [tagged, SetConnectionPriority(connection, AuthRequest),
                     RespondToAuthenticationRequest(after[peer], request, connection)]
    else if myHash < peerHash then
      after == before && effects == [tagged, rejection]
    else
      && after == before - {peer}
      && effects == [tagged, CancelHandshake(before[peer]),
                     RespondToAuthenticationRequest(before[peer], request, connection)]
  }

  /** A bootstrap step that took a random remaining seed node and
      authenticates to it. */
  ghost predicate TookSeedNode(seedsBefore: seq<Address>, seedsAfter: seq<Address>,
                               before: map<Address, AuthenticationHandshake>,
                               after: map<Address, AuthenticationHandshake>, effects: seq<Effect>)
  {
    exists i :: 0 <= i < |seedsBefore| && seedsAfter == RemoveAt(seedsBefore, i)
      && HandshakeStarted(before, after, seedsBefore[i], RemainingSeedNode, effects)
  }

  /** A bootstrap step that took a reported peer out of the pool and
      authenticates to it; the peer is one without a handshake in flight
      unless every reported peer has one. */
  ghost predicate TookReportedPeer(poolBefore: PeerRecords, poolAfter: PeerRecords,
                                   before: map<Address, AuthenticationHandshake>,
                                   after: map<Address, AuthenticationHandshake>, effects: seq<Effect>)
  {
    exists a :: a in poolBefore && poolAfter == poolBefore - {a}
      && (a in before ==> poolBefore.Keys <= before.Keys)
      && HandshakeStarted(before, after, a, RemainingReportedPeer, effects)
  }

  /** `authenticateToFirstSeedNode(peer)`: below the low threshold
      (`reached` false) it authenticates to `peer`; otherwise nothing
      happens. */
  ghost predicate FirstSeedNodeStep(reached: bool,
                                    before: map<Address, AuthenticationHandshake>,
                                    after: map<Address, AuthenticationHandshake>,
                                    peer: Address, effects: seq<Effect>)
  {
    if reached then after == before && effects == []
    else HandshakeStarted(before, after, peer, FirstSeedNode, effects)
  }

  /** `authenticateToRemainingSeedNode()` run on the given tables: nothing at
      the low threshold; below it a random remaining seed node, or else a
      reported peer, or else a retry after 10 to 20 seconds. */
  ghost predicate SeedNodeStep(reached: bool, seedsBefore: seq<Address>, seedsAfter: seq<Address>,
                               poolBefore: PeerRecords, poolAfter: PeerRecords,
                               before: map<Address, AuthenticationHandshake>,
                               after: map<Address, AuthenticationHandshake>, effects: seq<Effect>)
  {
    if reached then
      seedsAfter == seedsBefore && poolAfter == poolBefore && after == before && effects == []
    else if |seedsBefore| > 0 then
      poolAfter == poolBefore && TookSeedNode(seedsBefore, seedsAfter, before, after, effects)
    else if |poolBefore| > 0 then
      seedsAfter == seedsBefore && TookReportedPeer(poolBefore, poolAfter, before, after, effects)
    else
      && seedsAfter == seedsBefore && poolAfter == poolBefore && after == before
      && effects == [RetryAfterRandomDelay(10, 20)]
  }

  /** `authenticateToRemainingReportedPeer()` run on the given tables:
      nothing at the low threshold; below it a reported peer, or else a
      random remaining seed node, or else a retry after 30 to 40 seconds. */
  ghost predicate ReportedPeerStep(reached: bool, seedsBefore: seq<Address>, seedsAfter: seq<Address>,
                                   poolBefore: PeerRecords, poolAfter: PeerRecords,
                                   before: map<Address, AuthenticationHandshake>,
                                   after: map<Address, AuthenticationHandshake>, effects: seq<Effect>)
  {
    if reached then
      seedsAfter == seedsBefore && poolAfter == poolBefore && after == before && effects == []
    else if |poolBefore| > 0 then
      seedsAfter == seedsBefore && TookReportedPeer(poolBefore, poolAfter, before, after, effects)
    else if |seedsBefore| > 0 then
      poolAfter == poolBefore && TookSeedNode(seedsBefore, seedsAfter, before, after, effects)
    else
      && seedsAfter == seedsBefore && poolAfter == poolBefore && after == before
      && effects == [RetryAfterRandomDelay(30, 40)]
  }

  /** The position of the first occurrence of `x` in `s`. */
  function FirstIndex(s: seq<Address>, x: Address): (k: nat)
    requires x in s
    ensures k < |s| && s[k] == x && x !in s[..k]
  {
    if s[0] == x then 0
    else
      var k := FirstIndex(s[1..], x);
      assert s[..k + 1] == [s[0]] + s[1..][..k];
      k + 1
  }

  /** `List.remove(Object)`: drops the first occurrence of `x`, if any, and
      keeps the order of the rest. */
  function RemoveFirst(s: seq<Address>, x: Address): (r: seq<Address>)
    ensures x !in s ==> r == s
    ensures x in s ==> exists k :: 0 <= k < |s| && s[k] == x && x !in s[..k] && r == s[..k] + s[k + 1..]
    ensures x in s ==> |r| == |s| - 1
  {
    if x in s then
      var k := FirstIndex(s, x);
      s[..k] + s[k + 1..]
    else s
  }

  /** Every handshake is filed under the address of the peer it is with. */
  ghost predicate HandshakesKeyed(handshakes: map<Address, AuthenticationHandshake>) {
    forall a :: a in handshakes ==> handshakes[a].peerAddress == a
  }

  /** The authenticated table is keyed by each peer's address, and the
      reported pool holds neither this node nor an authenticated peer and
      stays within its cap. */
  ghost predicate PoolConsistent(myAddress: Address, authenticated: map<Address, Peer>, reported: PeerRecords) {
    && KeyedByAddress(authenticated)
    && myAddress !in reported
    && reported.Keys !! authenticated.Keys
    && |reported| <= MaxReportedPeers
  }

  lemma DroppingReportKeepsPool(myAddress: Address, authenticated: map<Address, Peer>,
                                reported: PeerRecords, a: Address)
    requires PoolConsistent(myAddress, authenticated, reported)
    ensures PoolConsistent(myAddress, authenticated, reported - {a})
  {
    assert (reported - {a}).Keys == reported.Keys - {a};
    assert |(reported - {a}).Keys| <= |reported.Keys|;
  }

  lemma RemovingAddressKeepsPool(myAddress: Address, authenticated: map<Address, Peer>,
                                 reported: PeerRecords, a: Address)
    requires PoolConsistent(myAddress, authenticated, reported)
    ensures PoolConsistent(myAddress, authenticated - {a}, reported - {a})
  {
    DroppingReportKeepsPool(myAddress, authenticated, reported, a);
  }

  lemma AuthenticatingKeepsPool(myAddress: Address, authenticated: map<Address, Peer>,
                                reported: PeerRecords, a: Address, connection: Connection)
    requires PoolConsistent(myAddress, authenticated, reported)
    ensures PoolConsistent(myAddress, authenticated[a := Peer(connection, a)], reported - {a})
  {
    RemovingAddressKeepsPool(myAddress, authenticated, reported, a);
  }

  class PeerGroup {
    const myAddress: Address
    /** `Address.hashCode()`, which this model does not define. */
    const addressHash: Address -> int

    var maxConnectionsLowPriority: int
    var maxConnectionsNormalPriority: int
    var maxConnectionsHighPriority: int

    var authenticatedPeers: map<Address, Peer>
    var reportedPeers: PeerRecords
    var remainingSeedNodes: seq<Address>
    var authenticationHandshakes: map<Address, AuthenticationHandshake>
    var seedNodeAddresses: Option<set<Address>>

    ghost predicate Valid()
      reads this`maxConnectionsLowPriority, this`maxConnectionsNormalPriority, this`maxConnectionsHighPriority
      reads this`authenticationHandshakes, this`authenticatedPeers, this`reportedPeers
    {
      && maxConnectionsNormalPriority == maxConnectionsLowPriority + 4
      && maxConnectionsHighPriority == maxConnectionsNormalPriority + 4
      && HandshakesKeyed(authenticationHandshakes)
      && PoolConsistent(myAddress, authenticatedPeers, reportedPeers)
    }

    constructor (myAddress: Address, addressHash: Address -> int)
      ensures Valid()
      ensures this.myAddress == myAddress && this.addressHash == addressHash
      ensures maxConnectionsLowPriority == 18
      ensures authenticatedPeers == map[] && reportedPeers == map[] && remainingSeedNodes == []
      ensures authenticationHandshakes == map[] && seedNodeAddresses == None
    {
      this.myAddress := myAddress;
      this.addressHash := addressHash;
      authenticatedPeers := map[];
      reportedPeers := map[];
      remainingSeedNodes := [];
      authenticationHandshakes := map[];
      seedNodeAddresses := None;
      new;
      SetMaxConnectionsLowPriority(18);
    }

    /** Sets the low threshold; the normal one is 4 above it and the high one
        4 above that. */
    method SetMaxConnectionsLowPriority(maxConnectionsLowPriority: int)
      modifies this`maxConnectionsLowPriority, this`maxConnectionsNormalPriority, this`maxConnectionsHighPriority
      ensures this.maxConnectionsLowPriority == maxConnectionsLowPriority
      ensures maxConnectionsNormalPriority == maxConnectionsLowPriority + 4
      ensures maxConnectionsHighPriority == maxConnectionsNormalPriority + 4
    {
      this.maxConnectionsLowPriority := maxConnectionsLowPriority;
      maxConnectionsNormalPriority := maxConnectionsLowPriority + 4;
      maxConnectionsHighPriority := maxConnectionsNormalPriority + 4;
    }

    /** The bootstrap stops starting handshakes once the authenticated table
        holds as many peers as the low threshold allows. */
    function MaxConnectionsForAuthReached(): (r: bool)
      reads this`authenticatedPeers, this`maxConnectionsLowPriority
      ensures r <==> |authenticatedPeers| >= maxConnectionsLowPriority
    {
      |authenticatedPeers| >= maxConnectionsLowPriority
    }

    /** The calls `addAuthenticatedPeer` makes once `peer` is in the table:
        tag and mark the connection, close the connection the eviction rule
        selects (re-checking the count 10 to 50 ms after it is closed), and
        notify the listeners. */
    function AuthenticatedEffects(connection: Connection, peer: Address, allConnections: seq<ConnectionInfo>)
      : (r: seq<Effect>)
      reads this`authenticatedPeers, this`maxConnectionsLowPriority
      reads this`maxConnectionsNormalPriority, this`maxConnectionsHighPriority
      ensures 3 <= |r| <= 4
      ensures r[..2] == [SetPeerAddress(connection, peer), SetAuthenticated(connection)]
      ensures r[|r| - 1] == NotifyPeerAuthenticated(peer, connection)
      ensures var evicted := SelectConnectionToEvict(|authenticatedPeers|, maxConnectionsLowPriority,
                                                     maxConnectionsNormalPriority, maxConnectionsHighPriority,
                                                     allConnections);
        && (|r| == 4 <==> evicted.Some?)
        && (evicted.Some? ==> r[2] == ShutDownThenRecheck(evicted.value.connection, 10, 50))
    {
      var evicted := SelectConnectionToEvict(|authenticatedPeers|, maxConnectionsLowPriority,
                                             maxConnectionsNormalPriority, maxConnectionsHighPriority, allConnections);
      [SetPeerAddress(connection, peer), SetAuthenticated(connection)]
      + (if evicted.Some? then [ShutDownThenRecheck(evicted.value.connection, 10, 50)] else [])
      + [NotifyPeerAuthenticated(peer, connection)]
    }

    // -----------------------------------------------------------------
    // Incoming authentication messages
    // -----------------------------------------------------------------

    /** Dispatches the two authentication messages the peer group handles;
        every other message is ignored. */
    method OnMessage(message: Message, connection: Connection) returns (effects: seq<Effect>)
      requires Valid()
      modifies this`authenticationHandshakes
      ensures Valid()
      ensures !message.AuthenticationRequest? && !message.AuthenticationRejection? ==>
                authenticationHandshakes == old(authenticationHandshakes) && effects == []
      ensures message.AuthenticationRejection? ==>
                && authenticationHandshakes == old(authenticationHandshakes) - {message.senderAddress}
                && effects == if message.senderAddress in old(authenticationHandshakes)
                              then [CancelHandshake(old(authenticationHandshakes)[message.senderAddress])]
                              else []
      ensures message.AuthenticationRequest? ==>
                && RequestHandled(myAddress, addressHash(myAddress), addressHash(message.senderAddress),
                                  authenticatedPeers.Keys, old(authenticationHandshakes), authenticationHandshakes,
                                  message, connection, effects)
                && (message.senderAddress !in old(authenticationHandshakes) &&
                    message.senderAddress in authenticationHandshakes ==>
                      fresh(authenticationHandshakes[message.senderAddress]))
    {
      if message.AuthenticationRequest? {
        effects := ProcessAuthenticationRequest(message, connection);
      } else if message.AuthenticationRejection? {
        effects := ProcessAuthenticationRejection(message);
      } else {
        effects := [];
      }
    }

    /** An authentication request from `request.senderAddress` arriving on
        `connection`, handled as `RequestHandled` describes; a handshake the
        request creates is a new object. */
    method ProcessAuthenticationRequest(request: Message, connection: Connection) returns (effects: seq<Effect>)
      requires Valid() && request.AuthenticationRequest?
      modifies this`authenticationHandshakes
      ensures Valid()
      ensures RequestHandled(myAddress, addressHash(myAddress), addressHash(request.senderAddress),
                             authenticatedPeers.Keys, old(authenticationHandshakes), authenticationHandshakes,
                             request, connection, effects)
      ensures request.senderAddress !in old(authenticationHandshakes) &&
              request.senderAddress in authenticationHandshakes ==>
                fresh(authenticationHandshakes[request.senderAddress])
    {
      var peer := request.senderAddress;
      effects := [SetPeerAddress(connection, peer)];
      if peer !in authenticatedPeers {
        if peer !in authenticationHandshakes {
          effects := effects + [SetConnectionPriority(connection, AuthRequest)];
          var handshake := new AuthenticationHandshake(myAddress, peer);
          authenticationHandshakes := authenticationHandshakes[peer := handshake];
          effects := effects + [RespondToAuthenticationRequest(handshake, request, connection)];
        } else {
          var handshake := authenticationHandshakes[peer];
          if ResolveCollision(addressHash(myAddress), addressHash(peer)) == RejectIncoming {
            effects := effects + [SendMessage(peer, AuthenticationRejection(myAddress))];
          } else {
            var cancelled := CancelOwnAuthenticationRequest(peer);
            effects := effects + cancelled + [RespondToAuthenticationRequest(handshake, request, connection)];
          }
        }
      } else {
        effects := effects + [SendMessage(peer, AuthenticationRejection(myAddress))];
      }
    }

    /** A rejection from a peer cancels and drops our handshake with it. */
    method ProcessAuthenticationRejection(message: Message) returns (effects: seq<Effect>)
      requires Valid() && message.AuthenticationRejection?
      modifies this`authenticationHandshakes
      ensures Valid()
      ensures authenticationHandshakes == old(authenticationHandshakes) - {message.senderAddress}
      ensures effects == if message.senderAddress in old(authenticationHandshakes)
                         then [CancelHandshake(old(authenticationHandshakes)[message.senderAddress])]
                         else []
    {
      effects := CancelOwnAuthenticationRequest(message.senderAddress);
    }

    /** Cancels the handshake with `peer`, if there is one, and removes it
        from the table; no other entry changes. */
    method CancelOwnAuthenticationRequest(peer: Address) returns (effects: seq<Effect>)
      requires Valid()
      modifies this`authenticationHandshakes
      ensures Valid()
      ensures authenticationHandshakes == old(authenticationHandshakes) - {peer}
      ensures effects == if peer in old(authenticationHandshakes)
                         then [CancelHandshake(old(authenticationHandshakes)[peer])]
                         else []
    {
      effects := [];
      if peer in authenticationHandshakes {
        effects := [CancelHandshake(authenticationHandshakes[peer])];
        authenticationHandshakes := authenticationHandshakes - {peer};
      }
    }

    // -----------------------------------------------------------------
    // Starting, completing and dropping authentications
    // -----------------------------------------------------------------

    /** Creates, registers and starts a handshake with `peer` only when none
        exists for that address; otherwise does nothing (the callback is
        then never attached). The authenticated table is not consulted. */
    method Authenticate(peer: Address, purpose: Purpose) returns (effects: seq<Effect>)
      requires Valid()
      modifies this`authenticationHandshakes
      ensures Valid()
      ensures HandshakeStarted(old(authenticationHandshakes), authenticationHandshakes, peer, purpose, effects)
      ensures peer !in old(authenticationHandshakes) ==> fresh(authenticationHandshakes[peer])
    {
      if peer !in authenticationHandshakes {
        var handshake := new AuthenticationHandshake(myAddress, peer);
        authenticationHandshakes := authenticationHandshakes[peer := handshake];
        effects := [RequestAuthentication(handshake, purpose)];
      } else {
        effects := [];
      }
    }

    /** Moves `peer` into the authenticated table over `connection`: its
        handshake and its reported record are dropped, the connection is
        marked, the connection count is checked against the thresholds (which
        may close the oldest eligible connection) and the listeners are told. */
    method AddAuthenticatedPeer(connection: Connection, peer: Address, allConnections: seq<ConnectionInfo>)
      returns (effects: seq<Effect>)
      requires Valid()
      modifies this`authenticationHandshakes, this`authenticatedPeers, this`reportedPeers
      ensures Valid()
      ensures authenticatedPeers == old(authenticatedPeers)[peer := Peer(connection, peer)]
      ensures authenticationHandshakes == old(authenticationHandshakes) - {peer}
      ensures reportedPeers == old(reportedPeers) - {peer}
      ensures effects == AuthenticatedEffects(connection, peer, allConnections)
    {
      effects := [SetPeerAddress(connection, peer), SetAuthenticated(connection)];
      authenticationHandshakes := authenticationHandshakes - {peer};
      AuthenticatingKeepsPool(myAddress, authenticatedPeers, reportedPeers, peer, connection);
      authenticatedPeers := authenticatedPeers[peer := Peer(connection, peer)];
      reportedPeers := reportedPeers - {peer};
      var _, eviction := CheckIfConnectedPeersExceeds(allConnections);
      effects := effects + eviction + [NotifyPeerAuthenticated(peer, connection)];
    }

    /** Drops every trace of `peer`: its handshake, its reported record and
        its authenticated entry, and nothing of any other address. A missing
        address (null) changes nothing. */
    method RemovePeer(peer: Option<Address>)
      requires Valid()
      modifies this`authenticationHandshakes, this`authenticatedPeers, this`reportedPeers
      ensures Valid()
      ensures peer.None? ==>
                && authenticationHandshakes == old(authenticationHandshakes)
                && authenticatedPeers == old(authenticatedPeers)
                && reportedPeers == old(reportedPeers)
      ensures peer.Some? ==>
                && authenticationHandshakes == old(authenticationHandshakes) - {peer.value}
                && authenticatedPeers == old(authenticatedPeers) - {peer.value}
                && reportedPeers == old(reportedPeers) - {peer.value}
    {
      if peer.Some? {
        var address := peer.value;
        // Removing a missing key is a no-op, as the source's containsKey guard.
        authenticationHandshakes := authenticationHandshakes - {address};
        RemovingAddressKeepsPool(myAddress, authenticatedPeers, reportedPeers, address);
        reportedPeers := reportedPeers - {address};
        authenticatedPeers := authenticatedPeers - {address};
      }
    }

    /** The connection-count check: when more peers are authenticated than
        the low threshold allows, the oldest connection of the first
        applicable tier is shut down, and once it is closed the check runs
        again after 10 to 50 ms. */
    method CheckIfConnectedPeersExceeds(allConnections: seq<ConnectionInfo>)
      returns (exceeded: bool, effects: seq<Effect>)
      ensures var evicted := SelectConnectionToEvict(|authenticatedPeers|, maxConnectionsLowPriority,
                               maxConnectionsNormalPriority, maxConnectionsHighPriority, allConnections);
        && exceeded == evicted.Some?
        && effects == if evicted.Some? then [ShutDownThenRecheck(evicted.value.connection, 10, 50)] else []
      ensures exceeded ==> |authenticatedPeers| > maxConnectionsLowPriority
    {
      var evicted := SelectConnectionToEvict(|authenticatedPeers|, maxConnectionsLowPriority,
                       maxConnectionsNormalPriority, maxConnectionsHighPriority, allConnections);
      if evicted.Some? {
        exceeded, effects := true, [ShutDownThenRecheck(evicted.value.connection, 10, 50)];
      } else {
        exceeded, effects := false, [];
      }
    }

    // -----------------------------------------------------------------
    // Outcomes of handshakes
    // -----------------------------------------------------------------

    // Each `authenticateTo...` operation attaches its own pair of callbacks to
    // the handshake it starts; the callbacks of a handshake answering an
    // incoming request are AddAuthenticatedPeer and RemovePeer themselves.

    /** The first seed node authenticated: continue with the reported peers. */
    method OnFirstSeedNodeAuthenticated(peer: Address, connection: Connection, allConnections: seq<ConnectionInfo>)
      returns (effects: seq<Effect>)
      requires Valid()
      modifies this`authenticationHandshakes, this`authenticatedPeers, this`reportedPeers, this`remainingSeedNodes
      ensures Valid()
      ensures authenticatedPeers == old(authenticatedPeers)[peer := Peer(connection, peer)]
      ensures var head := AuthenticatedEffects(connection, peer, allConnections);
        && |head| <= |effects| && effects[..|head|] == head
        && ReportedPeerStep(MaxConnectionsForAuthReached(), old(remainingSeedNodes), remainingSeedNodes,
                            old(reportedPeers) - {peer}, reportedPeers,
                            old(authenticationHandshakes) - {peer}, authenticationHandshakes, effects[|head|..])
    {
      effects := AddAuthenticatedPeer(connection, peer, allConnections);
      var next := AuthenticateToRemainingReportedPeer();
      assert (effects + next)[..|effects|] == effects && (effects + next)[|effects|..] == next;
      effects := effects + next;
    }

    /** The first seed node failed: drop it and try another random seed node
        as the first one, or the reported peers when none is left. */
    method OnFirstSeedNodeFailed(peer: Address) returns (effects: seq<Effect>)
      requires Valid()
      modifies this`authenticationHandshakes, this`authenticatedPeers, this`reportedPeers, this`remainingSeedNodes
      ensures Valid()
      ensures authenticatedPeers == old(authenticatedPeers) - {peer}
      ensures |old(remainingSeedNodes)| > 0 ==>
                && reportedPeers == old(reportedPeers) - {peer}
                && exists i :: 0 <= i < |old(remainingSeedNodes)|
                     && remainingSeedNodes == RemoveAt(old(remainingSeedNodes), i)
                     && FirstSeedNodeStep(MaxConnectionsForAuthReached(), old(authenticationHandshakes) - {peer},
                                          authenticationHandshakes, old(remainingSeedNodes)[i], effects)
      ensures |old(remainingSeedNodes)| == 0 ==>
                ReportedPeerStep(MaxConnectionsForAuthReached(), old(remainingSeedNodes), remainingSeedNodes,
                                 old(reportedPeers) - {peer}, reportedPeers,
                                 old(authenticationHandshakes) - {peer}, authenticationHandshakes, effects)
    {
      RemovePeer(Some(peer));
      if |remainingSeedNodes| > 0 {
        effects := AuthenticateToRandomFirstSeedNode();
      } else {
        effects := AuthenticateToRemainingReportedPeer();
      }
    }

    /** `authenticateToFirstSeedNode(getAndRemoveRandomAddress(remainingSeedNodes))`:
        a random remaining seed node is taken out and tried as first seed node. */
    method AuthenticateToRandomFirstSeedNode() returns (effects: seq<Effect>)
      requires Valid() && |remainingSeedNodes| > 0
      modifies this`authenticationHandshakes, this`remainingSeedNodes
      ensures Valid()
      ensures exists i :: 0 <= i < |old(remainingSeedNodes)|
                && remainingSeedNodes == RemoveAt(old(remainingSeedNodes), i)
                && FirstSeedNodeStep(MaxConnectionsForAuthReached(), old(authenticationHandshakes),
                                     authenticationHandshakes, old(remainingSeedNodes)[i], effects)
    {
      var next := GetAndRemoveRandomAddress();
      ghost var i :| 0 <= i < |old(remainingSeedNodes)| && next == old(remainingSeedNodes)[i]
                     && remainingSeedNodes == RemoveAt(old(remainingSeedNodes), i);
      effects := AuthenticateToFirstSeedNode(next);
    }

    /** A further seed node authenticated: continue with the seed nodes. */
    method OnRemainingSeedNodeAuthenticated(peer: Address, connection: Connection, allConnections: seq<ConnectionInfo>)
      returns (effects: seq<Effect>)
      requires Valid()
      modifies this`authenticationHandshakes, this`authenticatedPeers, this`reportedPeers, this`remainingSeedNodes
      ensures Valid()
      ensures authenticatedPeers == old(authenticatedPeers)[peer := Peer(connection, peer)]
      ensures var head := AuthenticatedEffects(connection, peer, allConnections);
        && |head| <= |effects| && effects[..|head|] == head
        && SeedNodeStep(MaxConnectionsForAuthReached(), old(remainingSeedNodes), remainingSeedNodes,
                        old(reportedPeers) - {peer}, reportedPeers,
                        old(authenticationHandshakes) - {peer}, authenticationHandshakes, effects[|head|..])
    {
      effects := AddAuthenticatedPeer(connection, peer, allConnections);
      var next := AuthenticateToRemainingSeedNode();
      assert (effects + next)[..|effects|] == effects && (effects + next)[|effects|..] == next;
      effects := effects + next;
    }

    /** A further seed node failed: drop it and try the next seed node. */
    method OnRemainingSeedNodeFailed(peer: Address) returns (effects: seq<Effect>)
      requires Valid()
      modifies this`authenticationHandshakes, this`authenticatedPeers, this`reportedPeers, this`remainingSeedNodes
      ensures Valid()
      ensures authenticatedPeers == old(authenticatedPeers) - {peer}
      ensures SeedNodeStep(MaxConnectionsForAuthReached(), old(remainingSeedNodes), remainingSeedNodes,
                           old(reportedPeers) - {peer}, reportedPeers,
                           old(authenticationHandshakes) - {peer}, authenticationHandshakes, effects)
    {
      RemovePeer(Some(peer));
      effects := AuthenticateToRemainingSeedNode();
    }

    /** A reported peer authenticated: continue with the reported peers. */
    method OnReportedPeerAuthenticated(peer: Address, connection: Connection, allConnections: seq<ConnectionInfo>)
      returns (effects: seq<Effect>)
      requires Valid()
      modifies this`authenticationHandshakes, this`authenticatedPeers, this`reportedPeers, this`remainingSeedNodes
      ensures Valid()
      ensures authenticatedPeers == old(authenticatedPeers)[peer := Peer(connection, peer)]
      ensures var head := AuthenticatedEffects(connection, peer, allConnections);
        && |head| <= |effects| && effects[..|head|] == head
        && ReportedPeerStep(MaxConnectionsForAuthReached(), old(remainingSeedNodes), remainingSeedNodes,
                            old(reportedPeers) - {peer}, reportedPeers,
                            old(authenticationHandshakes) - {peer}, authenticationHandshakes, effects[|head|..])
    {
      effects := AddAuthenticatedPeer(connection, peer, allConnections);
      var next := AuthenticateToRemainingReportedPeer();
      assert (effects + next)[..|effects|] == effects && (effects + next)[|effects|..] == next;
      effects := effects + next;
    }

    /** A reported peer failed: drop it and try the next reported peer. */
    method OnReportedPeerFailed(peer: Address) returns (effects: seq<Effect>)
      requires Valid()
      modifies this`authenticationHandshakes, this`authenticatedPeers, this`reportedPeers, this`remainingSeedNodes
      ensures Valid()
      ensures authenticatedPeers == old(authenticatedPeers) - {peer}
      ensures ReportedPeerStep(MaxConnectionsForAuthReached(), old(remainingSeedNodes), remainingSeedNodes,
                               old(reportedPeers) - {peer}, reportedPeers,
                               old(authenticationHandshakes) - {peer}, authenticationHandshakes, effects)
    {
      RemovePeer(Some(peer));
      effects := AuthenticateToRemainingReportedPeer();
    }

    /** The peer of a direct message authenticated: run the completion
        handler after the usual bookkeeping. */
    method OnDirectMessagePeerAuthenticated(peer: Address, connection: Connection, allConnections: seq<ConnectionInfo>)
      returns (effects: seq<Effect>)
      requires Valid()
      modifies this`authenticationHandshakes, this`authenticatedPeers, this`reportedPeers
      ensures Valid()
      ensures authenticatedPeers == old(authenticatedPeers)[peer := Peer(connection, peer)]
      ensures authenticationHandshakes == old(authenticationHandshakes) - {peer}
      ensures reportedPeers == old(reportedPeers) - {peer}
      ensures effects == AuthenticatedEffects(connection, peer, allConnections) + [RunCompleteHandler]
    {
      effects := AddAuthenticatedPeer(connection, peer, allConnections);
      effects := effects + [RunCompleteHandler];
    }

    /** The peer of a direct message failed: drop it and run the fault
        handler. */
    method OnDirectMessagePeerFailed(peer: Address) returns (effects: seq<Effect>)
      requires Valid()
      modifies this`authenticationHandshakes, this`authenticatedPeers, this`reportedPeers
      ensures Valid()
      ensures authenticationHandshakes == old(authenticationHandshakes) - {peer}
      ensures authenticatedPeers == old(authenticatedPeers) - {peer}
      ensures reportedPeers == old(reportedPeers) - {peer}
      ensures effects == [RunFaultHandler]
    {
      RemovePeer(Some(peer));
      effects := [RunFaultHandler];
    }

    // -----------------------------------------------------------------
    // Bootstrap
    // -----------------------------------------------------------------

    /** Starts the bootstrap: records the seed-node set, appends it (in the
        set's iteration order `seedNodes`) to the remaining seed nodes minus
        the first occurrence of `peer`, and authenticates to `peer`. */
    method AuthenticateToSeedNode(peer: Address, seedNodes: seq<Address>) returns (effects: seq<Effect>)
      requires Valid() && Distinct(seedNodes)
      modifies this`authenticationHandshakes, this`remainingSeedNodes, this`seedNodeAddresses
      ensures Valid()
      ensures seedNodeAddresses == Some(set a | a in seedNodes)
      ensures remainingSeedNodes == RemoveFirst(old(remainingSeedNodes) + seedNodes, peer)
      ensures FirstSeedNodeStep(MaxConnectionsForAuthReached(), old(authenticationHandshakes),
                                authenticationHandshakes, peer, effects)
    {
      seedNodeAddresses := Some(set a | a in seedNodes);
      remainingSeedNodes := RemoveFirst(remainingSeedNodes + seedNodes, peer);
      effects := AuthenticateToFirstSeedNode(peer);
    }

    method AuthenticateToFirstSeedNode(peer: Address) returns (effects: seq<Effect>)
      requires Valid()
      modifies this`authenticationHandshakes
      ensures Valid()
      ensures FirstSeedNodeStep(MaxConnectionsForAuthReached(), old(authenticationHandshakes),
                                authenticationHandshakes, peer, effects)
    {
      if !MaxConnectionsForAuthReached() {
        effects := Authenticate(peer, FirstSeedNode);
      } else {
        effects := [];
      }
    }

    /** Takes a seed node at a random index out of the remaining list, which
        must not be empty. */
    method GetAndRemoveRandomAddress() returns (address: Address)
      requires |remainingSeedNodes| > 0
      modifies this`remainingSeedNodes
      ensures exists i :: 0 <= i < |old(remainingSeedNodes)| && address == old(remainingSeedNodes)[i]
                && remainingSeedNodes == RemoveAt(old(remainingSeedNodes), i)
    {
      address, remainingSeedNodes := RemoveRandom(remainingSeedNodes);
    }

    /** One step of the bootstrap loop through the seed nodes: below the low
        threshold it authenticates to a random remaining seed node, falls back
        to the reported peers when the seed nodes are used up, and otherwise
        asks to be retried after 10 to 20 seconds. */
    method AuthenticateToRemainingSeedNode() returns (effects: seq<Effect>)
      requires Valid()
      modifies this`authenticationHandshakes, this`remainingSeedNodes, this`reportedPeers
      decreases if |remainingSeedNodes| > 0 then 0 else 2
      ensures Valid()
      ensures reportedPeers.Keys <= old(reportedPeers).Keys
      ensures SeedNodeStep(MaxConnectionsForAuthReached(), old(remainingSeedNodes), remainingSeedNodes,
                           old(reportedPeers), reportedPeers,
                           old(authenticationHandshakes), authenticationHandshakes, effects)
    {
      if !MaxConnectionsForAuthReached() {
        if |remainingSeedNodes| > 0 {
          var peer := GetAndRemoveRandomAddress();
          effects := Authenticate(peer, RemainingSeedNode);
        } else if |reportedPeers| > 0 {
          effects := AuthenticateToRemainingReportedPeer();
        } else {
          effects := [RetryAfterRandomDelay(10, 20)];
        }
      } else {
        effects := [];
      }
    }

    /** One step of the bootstrap loop through the reported peers: below the
        low threshold it takes a reported peer without a handshake in flight
        (if there is one) out of the pool and authenticates to it, falls back
        to the seed nodes when the pool is empty, and otherwise asks to be
        retried after 30 to 40 seconds. */
    method AuthenticateToRemainingReportedPeer() returns (effects: seq<Effect>)
      requires Valid()
      modifies this`authenticationHandshakes, this`remainingSeedNodes, this`reportedPeers
      decreases if |reportedPeers| > 0 then 1 else 3
      ensures Valid()
      ensures reportedPeers.Keys <= old(reportedPeers).Keys
      ensures ReportedPeerStep(MaxConnectionsForAuthReached(), old(remainingSeedNodes), remainingSeedNodes,
                               old(reportedPeers), reportedPeers,
                               old(authenticationHandshakes), authenticationHandshakes, effects)
    {
      if !MaxConnectionsForAuthReached() {
        if |reportedPeers| > 0 {
          // The source asks the picker twice: once to see that it finds a
          // peer, once to take one; the two random choices are independent.
          var probe := GetAndRemoveNotAuthenticatingReportedPeer();
          var picked := GetAndRemoveNotAuthenticatingReportedPeer();
          var peer := picked.value.address;
          DroppingReportKeepsPool(myAddress, authenticatedPeers, reportedPeers, peer);
          reportedPeers := reportedPeers - {peer};
          effects := Authenticate(peer, RemainingReportedPeer);
          assert peer in old(reportedPeers) && reportedPeers == old(reportedPeers) - {peer};
        } else if |remainingSeedNodes| > 0 {
          effects := AuthenticateToRemainingSeedNode();
        } else {
          effects := [RetryAfterRandomDelay(30, 40)];
        }
      } else {
        effects := [];
      }
    }

    /** Authentication for a one-off direct message: completes at once when
        the peer is authenticated, waits on the handshake in flight when there
        is one (or fails when that handshake has no result future yet), and
        otherwise starts a new handshake. */
    method AuthenticateToDirectMessagePeer(peer: Address, hasResultFuture: bool) returns (effects: seq<Effect>)
      requires Valid()
      modifies this`authenticationHandshakes
      ensures Valid()
      ensures peer in authenticatedPeers ==>
                authenticationHandshakes == old(authenticationHandshakes) && effects == [RunCompleteHandler]
      ensures peer !in authenticatedPeers && peer in old(authenticationHandshakes) ==>
                && authenticationHandshakes == old(authenticationHandshakes)
                && effects == if hasResultFuture then [AwaitHandshakeResult(authenticationHandshakes[peer])]
                              else [RunFaultHandler]
      ensures peer !in authenticatedPeers && peer !in old(authenticationHandshakes) ==>
                HandshakeStarted(old(authenticationHandshakes), authenticationHandshakes, peer, DirectMessagePeer, effects)
    {
      if peer in authenticatedPeers {
        effects := [RunCompleteHandler];
      } else if peer in authenticationHandshakes {
        if hasResultFuture {
          effects := [AwaitHandshakeResult(authenticationHandshakes[peer])];
        } else {
          effects := [RunFaultHandler];
        }
      } else {
        effects := Authenticate(peer, DirectMessagePeer);
      }
    }

    // -----------------------------------------------------------------
    // Reported peers
    // -----------------------------------------------------------------

    /** Merges a gossip batch received over `connection`. A batch larger than
        the pool cap plus three times the low threshold closes the connection
        and leaves the pool as it was. Otherwise the admissible records are
        added (see PeerRules.MergeReports) and the pool is purged to its cap. */
    method AddToReportedPeers(batch: PeerRecords, connection: Connection) returns (effects: seq<Effect>)
      requires Valid()
      modifies this`reportedPeers
      ensures Valid()
      ensures |batch| > MaxReportedPeers + maxConnectionsLowPriority * 3 ==>
                reportedPeers == old(reportedPeers) && effects == [ShutDownConnection(connection)]
      ensures |batch| <= MaxReportedPeers + maxConnectionsLowPriority * 3 ==>
                && effects == []
                && IsPurgeOf(reportedPeers, MergeReports(old(reportedPeers), batch, myAddress,
                                                         seedNodeAddresses, authenticatedPeers.Keys))
    {
      if |batch| > MaxReportedPeers + maxConnectionsLowPriority * 3 {
        effects := [ShutDownConnection(connection)];
      } else {
        MergeKeepsExclusions(reportedPeers, batch, myAddress, seedNodeAddresses, authenticatedPeers.Keys);
        reportedPeers := MergeReports(reportedPeers, batch, myAddress, seedNodeAddresses, authenticatedPeers.Keys);
        PurgeReportedPeersIfExceeds();
        effects := [];
      }
    }

    /** Removes random records until the pool is back at its cap. */
    method PurgeReportedPeersIfExceeds()
      modifies this`reportedPeers
      ensures IsPurgeOf(reportedPeers, old(reportedPeers))
    {
      var size := |reportedPeers|;
      if size > MaxReportedPeers {
        var diff := size - MaxReportedPeers;
        var list := ListOf(reportedPeers.Keys);
        for i := 0 to diff
          invariant Distinct(list) && |list| == size - i
          invariant forall a :: a in list <==> a in reportedPeers
          invariant |reportedPeers| == size - i
          invariant reportedPeers.Keys <= old(reportedPeers).Keys
          invariant forall a :: a in reportedPeers ==> reportedPeers[a] == old(reportedPeers)[a]
        {
          var toRemove, rest := RemoveRandom(list);
          list := rest;
          reportedPeers := reportedPeers - {toRemove};
        }
      }
    }

    /** The records this node gossips: the reported pool plus every
        authenticated peer that is not a known seed node, stamped `now`. */
    function GetAuthenticatedAndReportedPeers(now: int): (r: PeerRecords)
      reads this
      ensures r.Keys == reportedPeers.Keys +
                set p | p in authenticatedPeers.Values && (seedNodeAddresses.None? || p.address !in seedNodeAddresses.value)
                      :: p.address
      ensures forall a :: a in reportedPeers ==> r[a] == reportedPeers[a]
      ensures forall a :: a in r && a !in reportedPeers ==> r[a] == now
    {
      AddAll(reportedPeers,
             map p | p in authenticatedPeers.Values && (seedNodeAddresses.None? || p.address !in seedNodeAddresses.value)
                   :: p.address := now)
    }

    /** Picks reported peers at random from a copy of the pool until it finds
        one without a handshake in flight or the copy runs out. Empty only
        when the pool is; never changes the pool. */
    method GetAndRemoveNotAuthenticatingReportedPeer() returns (r: Option<ReportedPeer>)
      ensures r.None? <==> |reportedPeers| == 0
      ensures r.Some? ==> r.value.address in reportedPeers
                          && r.value.lastActivityDate == reportedPeers[r.value.address]
      ensures r.Some? && r.value.address in authenticationHandshakes ==>
                reportedPeers.Keys <= authenticationHandshakes.Keys
    {
      r := None;
      var list := ListOf(reportedPeers.Keys);
      if |list| > 0 {
        var picked;
        picked, list := RemoveRandom(list);
        while |list| > 0 && picked in authenticationHandshakes
          invariant Distinct(list) && picked in reportedPeers && picked !in list
          invariant forall a :: a in list ==> a in reportedPeers
          invariant forall a :: a in reportedPeers && a !in list && a != picked ==> a in authenticationHandshakes
          decreases |list|
        {
          picked, list := RemoveRandom(list);
        }
        r := Some(ReportedPeer(picked, reportedPeers[picked]));
      }
    }

    // -----------------------------------------------------------------
    // Broadcast
    // -----------------------------------------------------------------

    /** Schedules one delayed send for every authenticated peer except the
        sender, in an arbitrary order. */
    method Broadcast(message: Message, sender: Option<Address>) returns (effects: seq<Effect>)
      ensures |effects| == |BroadcastTargets(authenticatedPeers, sender)|
      ensures forall e :: e in effects <==>
                e.ScheduleBroadcast? && e.message == message && e.peer in BroadcastTargets(authenticatedPeers, sender)
      ensures |authenticatedPeers| == 0 ==> effects == []
    {
      effects := [];
      if |authenticatedPeers| > 0 {
        var targets := ListOf(BroadcastTargets(authenticatedPeers, sender));
        effects := seq(|targets|, i requires 0 <= i < |targets| => ScheduleBroadcast(targets[i], message));
        forall e: Effect | e.ScheduleBroadcast? && e.message == message && e.peer in BroadcastTargets(authenticatedPeers, sender)
          ensures e in effects
        {
          var i :| 0 <= i < |targets| && targets[i] == e.peer;
          assert effects[i] == e;
        }
      }
    }

    /** The delayed send of a broadcast: it happens only if the peer is still
        in the authenticated table. */
    method DeliverBroadcast(peer: Peer, message: Message) returns (effects: seq<Effect>)
      ensures peer in authenticatedPeers.Values ==> effects == [SendMessage(peer.address, message)]
      ensures peer !in authenticatedPeers.Values ==> effects == []
    {
      if peer in authenticatedPeers.Values {
        effects := [SendMessage(peer.address, message)];
      } else {
        effects := [];
      }
    }
  }
}
