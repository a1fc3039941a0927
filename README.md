# Bitsquare peer overlay and offer arithmetic in Dafny

This project models three pieces of the Bitsquare repository and proves
properties about them:

- **The peer group** (`PeerGroup`), the coordinator of the P2P overlay. It
  keeps four tables that its operations update in place: the authenticated
  peers (address to peer), the pool of reported peers learnt by gossip
  (address to last-activity time), the in-flight authentication handshakes
  (address to handshake) and the list of seed nodes not tried yet. The model
  covers incoming authentication requests and the hash-based collision
  rule, moving a peer into and out of the authenticated table, merging a
  gossip batch into the pool, purging the pool to its cap, choosing a
  connection to evict, choosing broadcast targets, and the bootstrap loop
  through seed nodes and reported peers.
- **The create-offer form** (`CreateOfferDataModel`): the amount the maker
  must fund, the funded flag, the minimum-amount check, the defaults of the
  offer it builds, and how the account, amount and volume fields are updated.
- **`MainView.viewId`** and the CSS ids of the navigation-button icons.

Files:

- `wrappers.dfy`: `Option` and `Result`.
- `network.dfy`: addresses, connections, connection priorities, gossip
  records and the authentication and peer-exchange messages, as values.
- `peer_rules.dfy`: the pure decisions of the peer group. These are the
  collision tie-break, the timestamp midpoint, the merge filters and
  `addAll`, the purge predicate, broadcast targets and the eviction tiers.
- `peer_group.dfy`: the `PeerGroup` class with its tables as fields, and the
  opaque `AuthenticationHandshake` token.
- `create_offer.dfy`: the offer arithmetic and the `CreateOfferDataModel`
  class.
- `main_view.dfy`: `indexOf`, ASCII lower-casing, `viewId` and the icon ids.

Calls the peer group makes into code outside the model are returned as a
sequence of `Effect` values, in the order the source makes them. These
calls are tagging or shutting a connection, sending a message, asking a
handshake to request, respond or cancel, notifying listeners, running a
direct-message handler and scheduling a retry. The outcome of a handshake
comes back through one event method per callback the source attaches
(`OnFirstSeedNodeAuthenticated`, `OnReportedPeerFailed`, …). A random index
is an arbitrary valid one (`:|`). `Address.hashCode()` is the constructor
parameter `addressHash`. Connection listings (`getAllConnections`) and the
balance, exchange-rate and rounding services are parameters.

Behaviour the proofs establish that a reader may not expect:

- The reported pool is a `HashSet` of records equal by address. `addAll`
  therefore never replaces a stored record: the averaged timestamp computed
  for an address already in the pool is never stored (`MergeTimestamps`).
- When both addresses hash alike, both sides of a collision cancel their own
  handshake and answer the other's (`EqualHashesBothCancel`).
- The third eviction tier ("everything but AUTH_REQUEST") differs from the
  second only by connections of a priority other than PASSIVE, ACTIVE and
  AUTH_REQUEST. The enum is not part of this model; the priority set on
  direct-message connections (PeerGroup.java:429) is modelled as a fourth
  value `DirectMsg`. Such a connection can only be closed by the third tier,
  above the high threshold (`LastTierAddsOnlyDirectMsg`,
  `LastTierClosesOnlyDirectMsg`).
- A form whose minimum amount is set while its amount is not passes the
  minimum check, and the offer then carries that minimum above an amount of 0
  (`UnsetAmountUndercutsMinimum`).
- The reported-peer picker returns a peer whenever the pool is non-empty,
  even when every reported peer has a handshake in flight. The retry branch
  for "no reported peer available" (PeerGroup.java:407-411) is therefore
  unreachable and not modelled. When every reported peer is handshaking, the
  bootstrap step removes one of them from the pool, starts nothing and
  schedules no retry (`TookReportedPeer` with `HandshakeStarted`).
- `authenticate` does not consult the authenticated table, so "an address is
  never both authenticated and handshaking" is not an invariant of the
  class, and `Valid()` does not claim it.
- On activation the funded flag is computed before the BUY total is
  refreshed, so it reflects the total as it stood before
  (`CreateOfferDataModel.Activate`).

Where the source's own comments and its code differ, the model follows the
code. The comment at PeerGroup.java:661-662 says a known peer's date is
adjusted to the midpoint, but the stored record is kept (`MergeTimestamps`).
The log message at PeerGroup.java:408 expects the picker to find nothing
while reported peers are authenticating, but it returns such a peer, as
described above. The picker is called twice (PeerGroup.java:381-382), and
the model calls it twice too.

## Model

| member | source | states |
|---|---|---|
| PeerRules.ResolveCollision | network/src/main/java/io/bitsquare/p2p/peers/PeerGroup.java:212-221 | the incoming request is rejected exactly when our address hash is below the peer's |
| PeerRules.CollisionKeepsExactlyOneSide | network/src/main/java/io/bitsquare/p2p/peers/PeerGroup.java:212-221 | for distinct hashes the two sides of a collision decide oppositely, so exactly one handshake survives |
| PeerRules.EqualHashesBothCancel | network/src/main/java/io/bitsquare/p2p/peers/PeerGroup.java:212-221 | for equal hashes both sides accept the other's request and cancel their own |
| PeerRules.Midpoint | network/src/main/java/io/bitsquare/p2p/peers/PeerGroup.java:672-673 | the adjusted time `(reported + stored) / 2` lies between the two and differs from their mean by at most one half |
| PeerRules.HalfTowardZero | network/src/main/java/io/bitsquare/p2p/peers/PeerGroup.java:672 | Java's `/ 2` on a long: twice the result is the operand rounded toward zero to an even number |
| PeerRules.Admissible | network/src/main/java/io/bitsquare/p2p/peers/PeerGroup.java:667-669 | an address passes the three filters exactly when it is neither this node, nor authenticated, nor a known seed node |
| PeerRules.AdjustedReports | network/src/main/java/io/bitsquare/p2p/peers/PeerGroup.java:663-679 | the adjusted set holds exactly the batch's admissible addresses; a new one keeps its reported time, a known one gets a time between the reported and the stored one |
| PeerRules.AddAll | network/src/main/java/io/bitsquare/p2p/peers/PeerGroup.java:681 | `addAll` with records equal by address keeps every stored record and adds only new addresses |
| PeerRules.MergeReports | network/src/main/java/io/bitsquare/p2p/peers/PeerGroup.java:663-681 | the merged pool keeps every stored address with its stored time |
| PeerRules.MergeAddsOnlyAdmissible | network/src/main/java/io/bitsquare/p2p/peers/PeerGroup.java:664-681 | the merge adds exactly the batch's addresses that are not this node, not a known seed and not authenticated |
| PeerRules.MergeTimestamps | network/src/main/java/io/bitsquare/p2p/peers/PeerGroup.java:667-681 | a known address gets the midpoint as candidate but keeps its stored time; a new one is stored with its reported time |
| PeerRules.MergeKeepsExclusions | network/src/main/java/io/bitsquare/p2p/peers/PeerGroup.java:667-669 | a pool without this node and without authenticated addresses keeps both exclusions after a merge |
| PeerRules.PurgeRemovesExactlyTheExcess | network/src/main/java/io/bitsquare/p2p/peers/PeerGroup.java:688-707 | a purge removes exactly `size - 1000` distinct records over the cap and nothing at or under it |
| PeerRules.BroadcastTargets | network/src/main/java/io/bitsquare/p2p/peers/PeerGroup.java:129-131 | the targets are the authenticated peers whose address is not the sender's |
| PeerRules.BroadcastTargetCount | network/src/main/java/io/bitsquare/p2p/peers/PeerGroup.java:129-131 | there is one target per authenticated peer, less one when the sender is authenticated, and none is the sender |
| PeerRules.ImageCount | network/src/main/java/io/bitsquare/p2p/peers/PeerGroup.java:129-131 | in a table keyed by peer address, distinct keys give distinct peers |
| PeerRules.Candidates | network/src/main/java/io/bitsquare/p2p/peers/PeerGroup.java:579-603 | a tier's candidates are exactly the authenticated connections of that tier's priorities |
| PeerRules.EvictionCandidates | network/src/main/java/io/bitsquare/p2p/peers/PeerGroup.java:579-603 | the cascade yields only authenticated non-AUTH_REQUEST connections: the passive ones whenever there are any; otherwise nothing at or below the normal threshold, the passive-or-active ones above it when there are any, and otherwise all but AUTH_REQUEST above the high threshold and nothing at or below it |
| PeerRules.Oldest | network/src/main/java/io/bitsquare/p2p/peers/PeerGroup.java:607-609 | the connection taken after sorting is one of the candidates, with the least last-activity date |
| PeerRules.SelectConnectionToEvict | network/src/main/java/io/bitsquare/p2p/peers/PeerGroup.java:566-622 | a connection is chosen only above the low threshold; it is authenticated, never AUTH_REQUEST, from the first applicable tier, and the oldest there; PASSIVE ones go first; nothing is chosen exactly when under the threshold or without candidates |
| PeerRules.LastTierAddsOnlyDirectMsg | network/src/main/java/io/bitsquare/p2p/peers/PeerGroup.java:589-600 | the "all but AUTH_REQUEST" filter selects what "PASSIVE or ACTIVE" does plus the authenticated direct-message connections, and exactly the same connections when there are none |
| PeerRules.LastTierClosesOnlyDirectMsg | network/src/main/java/io/bitsquare/p2p/peers/PeerGroup.java:589-621 | with no authenticated passive or active connection, nothing is closed at or below the high threshold; above it a connection is closed exactly when a direct-message one exists, and it is one |
| PeerRules.FirstTierWithinSecond | network/src/main/java/io/bitsquare/p2p/peers/PeerGroup.java:579-591 | the PASSIVE tier is never larger than the PASSIVE-or-ACTIVE tier |
| PeerRules.RemoveRandom | network/src/main/java/io/bitsquare/p2p/peers/PeerGroup.java:713-716 | removing at a random index returns an element of the list and the list without exactly that position |
| PeerRules.ListOf | network/src/main/java/io/bitsquare/p2p/peers/PeerGroup.java:695 | copying a set into a list yields each element once |
| PeerRules.RemoveAt | network/src/main/java/io/bitsquare/p2p/peers/PeerGroup.java:367-370 | `List.remove(int)` shortens the list by one, keeps only its elements and, on a list without duplicates, removes exactly the element at that index |
| Peers.RemoveFirst | network/src/main/java/io/bitsquare/p2p/peers/PeerGroup.java:283 | `List.remove(Object)` removes the first occurrence and keeps the rest in order; a list without the element is left alone |
| Peers.PeerGroup.constructor | network/src/main/java/io/bitsquare/p2p/peers/PeerGroup.java:44-63 | the group starts with empty tables, no seed set and a low threshold of 18 |
| Peers.PeerGroup.SetMaxConnectionsLowPriority | network/src/main/java/io/bitsquare/p2p/peers/PeerGroup.java:38-42 | normal is low + 4 and high is normal + 4 |
| Peers.PeerGroup.MaxConnectionsForAuthReached | network/src/main/java/io/bitsquare/p2p/peers/PeerGroup.java:554-556 | the bootstrap limit is reached exactly when the authenticated table holds at least the low threshold of peers |
| Peers.PeerGroup.OnMessage | network/src/main/java/io/bitsquare/p2p/peers/PeerGroup.java:114-119 | a request is handled exactly as `ProcessAuthenticationRequest` states, a rejection exactly as `ProcessAuthenticationRejection` states, and any other message changes nothing |
| Peers.PeerGroup.ProcessAuthenticationRequest | network/src/main/java/io/bitsquare/p2p/peers/PeerGroup.java:181-231 | an authenticated sender is only rejected; a new sender gets exactly one fresh handshake and an AUTH_REQUEST connection; on a collision the lower hash rejects and keeps its handshake, the other cancels, drops and answers through its own |
| Peers.PeerGroup.ProcessAuthenticationRejection | network/src/main/java/io/bitsquare/p2p/peers/PeerGroup.java:233-238 | a rejection cancels and drops our handshake with the sender only |
| Peers.PeerGroup.CancelOwnAuthenticationRequest | network/src/main/java/io/bitsquare/p2p/peers/PeerGroup.java:261-267 | the handshake with the address, if any, is cancelled and removed; no other entry changes |
| Peers.PeerGroup.Authenticate | network/src/main/java/io/bitsquare/p2p/peers/PeerGroup.java:492-508 | a fresh handshake is registered and started only when none exists for the address |
| Peers.PeerGroup.AddAuthenticatedPeer | network/src/main/java/io/bitsquare/p2p/peers/PeerGroup.java:510-534 | the peer enters the authenticated table and leaves the handshake table and the pool; the effects are `AuthenticatedEffects`, in source order |
| Peers.PeerGroup.AuthenticatedEffects | network/src/main/java/io/bitsquare/p2p/peers/PeerGroup.java:510-534 | the connection is tagged and marked first and the listeners are told last; in between, exactly when the eviction rule selects a connection, that connection is shut down with a re-check 10 to 50 ms later |
| Peers.PeerGroup.RemovePeer | network/src/main/java/io/bitsquare/p2p/peers/PeerGroup.java:536-552 | the address leaves all three tables and no other address is touched; a missing address changes nothing |
| Peers.PeerGroup.CheckIfConnectedPeersExceeds | network/src/main/java/io/bitsquare/p2p/peers/PeerGroup.java:566-622 | the oldest connection of the applicable tier is shut down, with a re-check 10 to 50 ms after it closes, exactly when one is selected; that needs more peers than the low threshold |
| Peers.PeerGroup.OnFirstSeedNodeAuthenticated | network/src/main/java/io/bitsquare/p2p/peers/PeerGroup.java:294-300 | the seed node is authenticated with the effects of `addAuthenticatedPeer`, and the rest is one `authenticateToRemainingReportedPeer` step run on the tables that result |
| Peers.PeerGroup.OnFirstSeedNodeFailed | network/src/main/java/io/bitsquare/p2p/peers/PeerGroup.java:303-317 | the seed node leaves all tables; with seed nodes left a random one is taken out and tried as first seed node below the threshold, otherwise one reported-peer step runs on the reduced tables |
| Peers.PeerGroup.AuthenticateToRandomFirstSeedNode | network/src/main/java/io/bitsquare/p2p/peers/PeerGroup.java:310-312 | a random remaining seed node is taken out of the list and tried as first seed node below the threshold |
| Peers.PeerGroup.OnRemainingSeedNodeAuthenticated | network/src/main/java/io/bitsquare/p2p/peers/PeerGroup.java:333-339 | the seed node is authenticated with the effects of `addAuthenticatedPeer`, and the rest is one `authenticateToRemainingSeedNode` step run on the tables that result |
| Peers.PeerGroup.OnRemainingSeedNodeFailed | network/src/main/java/io/bitsquare/p2p/peers/PeerGroup.java:342-351 | the seed node leaves all tables, then one seed-node step runs on the reduced tables |
| Peers.PeerGroup.OnReportedPeerAuthenticated | network/src/main/java/io/bitsquare/p2p/peers/PeerGroup.java:387-393 | the peer is authenticated with the effects of `addAuthenticatedPeer`, and the rest is one reported-peer step run on the tables that result |
| Peers.PeerGroup.OnReportedPeerFailed | network/src/main/java/io/bitsquare/p2p/peers/PeerGroup.java:396-405 | the peer leaves all tables, then one reported-peer step runs on the reduced tables |
| Peers.PeerGroup.OnDirectMessagePeerAuthenticated | network/src/main/java/io/bitsquare/p2p/peers/PeerGroup.java:466-472 | the peer enters the authenticated table and leaves the handshake table and the pool; the effects are those of `addAuthenticatedPeer` followed by the completion handler |
| Peers.PeerGroup.OnDirectMessagePeerFailed | network/src/main/java/io/bitsquare/p2p/peers/PeerGroup.java:475-482 | the peer is removed from all tables, then the fault handler runs |
| Peers.PeerGroup.AuthenticateToSeedNode | network/src/main/java/io/bitsquare/p2p/peers/PeerGroup.java:279-285 | the seed set is recorded, appended to the remaining list minus the first occurrence of the chosen node, and the chosen node is tried |
| Peers.PeerGroup.AuthenticateToFirstSeedNode | network/src/main/java/io/bitsquare/p2p/peers/PeerGroup.java:287-323 | below the low threshold a handshake with the seed node is started as with `authenticate`; at the threshold nothing happens |
| Peers.PeerGroup.GetAndRemoveRandomAddress | network/src/main/java/io/bitsquare/p2p/peers/PeerGroup.java:367-370 | one remaining seed node, at a random position, is taken out of the list |
| Peers.PeerGroup.AuthenticateToRemainingSeedNode | network/src/main/java/io/bitsquare/p2p/peers/PeerGroup.java:325-365 | at the threshold nothing changes; otherwise a random remaining seed node is taken out and tried, or else a reported peer, or else a retry after 10 to 20 s is scheduled; the pool never grows |
| Peers.PeerGroup.AuthenticateToRemainingReportedPeer | network/src/main/java/io/bitsquare/p2p/peers/PeerGroup.java:377-422 | at the threshold nothing changes; otherwise a reported peer (one not handshaking when there is one) leaves the pool and is tried, or else a seed node, or else a retry after 30 to 40 s is scheduled |
| Peers.PeerGroup.AuthenticateToDirectMessagePeer | network/src/main/java/io/bitsquare/p2p/peers/PeerGroup.java:430-485 | an authenticated peer completes at once; a handshaking peer waits on that handshake or fails without a result future; otherwise a handshake is started |
| Peers.PeerGroup.AddToReportedPeers | network/src/main/java/io/bitsquare/p2p/peers/PeerGroup.java:653-686 | an oversized batch shuts the connection and leaves the pool unchanged; otherwise the pool becomes a purge of the merge |
| Peers.PeerGroup.PurgeReportedPeersIfExceeds | network/src/main/java/io/bitsquare/p2p/peers/PeerGroup.java:688-707 | the pool keeps unchanged records of itself, as many as the cap of 1000 allows |
| Peers.PeerGroup.GetAuthenticatedAndReportedPeers | network/src/main/java/io/bitsquare/p2p/peers/PeerGroup.java:629-638 | the gossiped records are the pool's, plus every non-seed authenticated peer stamped with the current time, with the pool's record kept on overlap |
| Peers.PeerGroup.GetAndRemoveNotAuthenticatingReportedPeer | network/src/main/java/io/bitsquare/p2p/peers/PeerGroup.java:718-728 | the result is empty exactly when the pool is; it is a stored record, without a handshake whenever such a record exists; the pool is not changed |
| Peers.PeerGroup.Broadcast | network/src/main/java/io/bitsquare/p2p/peers/PeerGroup.java:126-161 | exactly one delayed send is scheduled per broadcast target |
| Peers.PeerGroup.DeliverBroadcast | network/src/main/java/io/bitsquare/p2p/peers/PeerGroup.java:132-160 | the delayed send happens only if the peer is still authenticated |
| CreateOffer.TotalToPay | gui/src/main/java/io/bitsquare/gui/main/offer/createoffer/CreateOfferDataModel.java:321-328 | BUY pays the two fees and the deposit; every other direction, unset included, pays the amount on top, and fails with an unset amount |
| CreateOffer.SellerPaysTheAmountOnTop | gui/src/main/java/io/bitsquare/gui/main/offer/createoffer/CreateOfferDataModel.java:323-326 | a seller's total exceeds a buyer's by exactly the amount |
| CreateOffer.TotalCoversEachPart | gui/src/main/java/io/bitsquare/gui/main/offer/createoffer/CreateOfferDataModel.java:321-328 | with non-negative parts the total is at least each fee, the deposit and, for non-BUY, the amount |
| CreateOffer.Funded | gui/src/main/java/io/bitsquare/gui/main/offer/createoffer/CreateOfferDataModel.java:330-332 | the wallet is funded exactly when a total is set and the balance reaches it |
| CreateOffer.FundedIsMonotone | gui/src/main/java/io/bitsquare/gui/main/offer/createoffer/CreateOfferDataModel.java:330-332 | a larger balance stays funded, and a balance funding a sell offer funds the buy offer too |
| CreateOffer.MinAmountLessOrEqualAmount | gui/src/main/java/io/bitsquare/gui/main/offer/createoffer/CreateOfferDataModel.java:261-266 | the check fails exactly when both values are set and the minimum exceeds the amount |
| CreateOffer.OrZero | gui/src/main/java/io/bitsquare/gui/main/offer/createoffer/CreateOfferDataModel.java:192-194 | an unset value becomes 0 and a set one is kept |
| CreateOffer.Offer | gui/src/main/java/io/bitsquare/gui/main/offer/createoffer/CreateOfferDataModel.java:191-217 | a missing account fails first and a missing node address next; otherwise the offer carries the form's values, 0 for unset numbers, and the account's ids and SEPA countries |
| CreateOffer.OfferRespectsMinimum | gui/src/main/java/io/bitsquare/gui/main/offer/createoffer/CreateOfferDataModel.java:192-194 | a form passing the minimum check with a non-negative amount set, or with neither value set, yields an offer whose minimum does not exceed its amount |
| CreateOffer.UnsetAmountUndercutsMinimum | gui/src/main/java/io/bitsquare/gui/main/offer/createoffer/CreateOfferDataModel.java:192-194 | a positive minimum with an unset amount passes the check at lines 263-265, and its offer has that minimum above an amount of 0 |
| CreateOffer.CreateOfferDataModel.constructor | gui/src/main/java/io/bitsquare/gui/main/offer/createoffer/CreateOfferDataModel.java:85-96 | all properties start unset and the wallet unfunded |
| CreateOffer.CreateOfferDataModel.InitWithData | gui/src/main/java/io/bitsquare/gui/main/offer/createoffer/CreateOfferDataModel.java:176-184 | direction and currency are set; the account changes only when a matching one is found |
| CreateOffer.CreateOfferDataModel.OnPaymentAccountSelected | gui/src/main/java/io/bitsquare/gui/main/offer/createoffer/CreateOfferDataModel.java:241-244 | selecting no account keeps the current one |
| CreateOffer.CreateOfferDataModel.UpdateBalance | gui/src/main/java/io/bitsquare/gui/main/offer/createoffer/CreateOfferDataModel.java:330-332 | the wallet is funded exactly when a total is set and the balance reaches it |
| CreateOffer.CreateOfferDataModel.CalculateTotalToPay | gui/src/main/java/io/bitsquare/gui/main/offer/createoffer/CreateOfferDataModel.java:321-328 | without a deposit nothing changes; otherwise the total becomes `TotalToPay`, and an unset amount for non-BUY fails leaving it as it was |
| CreateOffer.CreateOfferDataModel.Activate | gui/src/main/java/io/bitsquare/gui/main/offer/createoffer/CreateOfferDataModel.java:136-145 | the funded flag uses the total from before activation; for BUY the total is then refreshed when a deposit is configured and left alone otherwise; other directions leave it alone |
| CreateOffer.CreateOfferDataModel.CalculateVolume | gui/src/main/java/io/bitsquare/gui/main/offer/createoffer/CreateOfferDataModel.java:300-307 | the volume is recomputed exactly when price and amount are set and non-zero, and unchanged otherwise |
| CreateOffer.CreateOfferDataModel.CalculateAmount | gui/src/main/java/io/bitsquare/gui/main/offer/createoffer/CreateOfferDataModel.java:309-319 | the amount is recomputed exactly when volume and price are set and non-zero, and then the total too when a deposit is configured; otherwise nothing changes |
| MainView.IndexOf | gui/src/main/java/io/bitsquare/gui/main/MainView.java:512 | `indexOf` gives the first occurrence or -1 |
| MainView.IndexFrom | gui/src/main/java/io/bitsquare/gui/main/MainView.java:512 | the search from a position yields the first occurrence at or after it, or -1 when there is none |
| MainView.LowerChar | gui/src/main/java/io/bitsquare/gui/main/MainView.java:515 | an upper-case ASCII letter becomes its lower-case letter and every other character is kept |
| MainView.ToLower | gui/src/main/java/io/bitsquare/gui/main/MainView.java:515 | lower-casing keeps the length and maps each character |
| MainView.ViewId | gui/src/main/java/io/bitsquare/gui/main/MainView.java:509-516 | a result is four characters shorter than the name |
| MainView.ViewIdStripsSuffix | gui/src/main/java/io/bitsquare/gui/main/MainView.java:509-516 | a name ending in its only "View" yields the lower-cased rest |
| MainView.ViewIdSucceedsOnlyOnSuffix | gui/src/main/java/io/bitsquare/gui/main/MainView.java:509-516 | a result implies the name ends in its first "View" and the result is the lower-cased rest |
| MainView.EarlierSuffixFails | gui/src/main/java/io/bitsquare/gui/main/MainView.java:512-514 | any "View" before the end makes the helper throw, even when the name also ends in "View" |
| MainView.ViewFooViewFails | gui/src/main/java/io/bitsquare/gui/main/MainView.java:512-514 | "ViewFooView" has no id |
| MainView.NoSuffixFails | gui/src/main/java/io/bitsquare/gui/main/MainView.java:512-515 | a name without "View" never yields an id; at length 3 it fails in `substring` |
| MainView.NavGraphicId | gui/src/main/java/io/bitsquare/gui/main/MainView.java:477-501 | a button has an icon id exactly when its view has an id |
| MainView.SelectedIdExtendsUnselected | gui/src/main/java/io/bitsquare/gui/main/MainView.java:497-501 | the selected id is the unselected one plus "-active", and the unselected one is "image-nav-" plus the view id |
| MainView.MarketButtonIds | gui/src/main/java/io/bitsquare/gui/main/MainView.java:477-501 | the market button's icon ids are "image-nav-market" and "image-nav-market-active" |

## Left out

- Timers and delays: the 10-100 ms broadcast stagger, the 10-50 ms re-check
  after an eviction (`ShutDownThenRecheck`) and the bootstrap retries appear
  only as `Effect` values.
  `RetryAfterRandomDelay` always stands for a later
  `authenticateToRemainingReportedPeer`.
- `RunCompleteHandler` and `RunFaultHandler` stand for "run the handler if
  one was given": both handlers are nullable in the source and run only when
  set (PeerGroup.java:437-481).
- Futures and callbacks: a handshake's outcome is an event method; a send
  failure of a broadcast is `RemovePeer` on that address.
- `onDisconnect` is `RemovePeer` applied to the connection's optional peer
  address (PeerGroup.java:99-102), so it has no member of its own.
- The authentication handshake's nonce protocol, `PeerExchangeManager` and
  `MaintenanceManager` are not part of this model. The handshake is an
  opaque token that can be requested, answered and cancelled.
- Logging (`printAuthenticatedPeers`, `printReportedPeers`, `Log.traceCall`).
- `shutDown` (PeerGroup.java:163-169), which shuts down the maintenance and
  peer-exchange managers and unregisters the listeners: both managers are
  not part of this model, and neither are the listener registrations.
- `Address.hashCode()` is the abstract function `addressHash`; `Address`,
  `ReportedPeer`, `Connection` and `Peer` equality are modelled as value
  equality (records by address, connections by id, peers by connection and
  address). `Peer.equals` is not part of this model, so `DeliverBroadcast`'s
  `containsValue` test compares values, not identities.
- `ConnectionPriority`'s definition is not part of this model. Besides
  PASSIVE, ACTIVE and AUTH_REQUEST it has the one value `DirectMsg`, for the
  priority of direct-message connections; further values would behave like
  it in the eviction filters.
- The iteration order of Java sets (connections, peers, seed nodes) is an
  arbitrary order. `AuthenticateToSeedNode` takes the seed set as a list of
  distinct addresses in that order.
- The thresholds are static fields in the source and per-object fields here.
- Peers.PeerGroup.GetAuthenticatedAndReportedPeers: `new Date()` is the
  parameter `now`.
- PeerRules.Midpoint: Java `long` overflow of the sum of two times is not
  modelled; integers are unbounded.
- CreateOffer.TotalToPay: bitcoinj `Coin.add` overflow is not modelled;
  amounts are unbounded integers in satoshis.
- `ExchangeRate.coinToFiat`/`fiatToCoin`, `reduceTo4Decimals`, the wallet
  balance and `findFirstPaymentAccountWithCurrency` are function or value
  parameters, because their code is not part of this model.
- `getOffer`'s offer id, key ring and arbitrator list come from services
  outside this model, and the payment account's country
  (CreateOfferDataModel.java:201) is not modelled; none of them is a field
  of `OfferDraft` or `PaymentAccount`.
- `onCurrencySelected`, `onPlaceOffer` and the property bindings of the form
  are not part of this model.
- MainView.ToLower: only ASCII letters are lower-cased; Java's Unicode case
  mapping is not modelled.
- MainView.MarketButtonIds: only the market button's ids are stated
  concretely; the other seven follow from `ViewIdStripsSuffix` and
  `NavGraphicId` in the same way.
