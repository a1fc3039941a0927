/** Value types of the peer-to-peer overlay: addresses, connection handles,
    gossip records and the wire messages that the peer group reads. */
module Network {

  /** A network endpoint; used as a map key, so equality is by value. */
  datatype Address = Address(hostName: string, port: int)

  /** Handle of a transport connection, identified by its stable uid. The
      connection's mutable state lives in the transport; the peer group only
      asks the transport to change it (see Peers.Effect). */
  datatype Connection = Connection(uid: nat)

  /** Protection level of a connection against eviction. The enum itself is
      not part of this model: PASSIVE, ACTIVE and AUTH_REQUEST are the values
      the peer group names, and DirectMsg stands for the priority set on
      connections that carry direct messages (PeerGroup.java:429), which only
      the last eviction filter lets through. */
  datatype ConnectionPriority = Passive | Active | AuthRequest | DirectMsg

  /** What the transport reports about one open connection when the peer
      group looks for one to close. */
  datatype ConnectionInfo = ConnectionInfo(
    connection: Connection,
    authenticated: bool,
    priority: ConnectionPriority,
    lastActivityDate: int)

  /** One gossip record: an address and its last-activity time in
      milliseconds. */
  datatype ReportedPeer = ReportedPeer(address: Address, lastActivityDate: int)

  /** A set of ReportedPeer records whose equality is by address only, so
      that it holds at most one record per address: the map sends each
      address to the timestamp of the record the set holds. */
  type PeerRecords = map<Address, int>

  /** An authenticated session: the connection and the peer's address. */
  datatype Peer = Peer(connection: Connection, address: Address)

  /** The network messages the peer group sends or dispatches on. */
  datatype Message =
    | AuthenticationRequest(senderAddress: Address, requesterNonce: int, reportedPeers: PeerRecords)
    | AuthenticationChallenge(senderAddress: Address, requesterNonce: int, responderNonce: int, reportedPeers: PeerRecords)
    | AuthenticationRejection(senderAddress: Address)
    | GetPeersRequest(senderAddress: Address, reportedPeers: PeerRecords)
    | GetPeersResponse(reportedPeers: PeerRecords)
    | DataBroadcastMessage(payload: seq<int>)
}
