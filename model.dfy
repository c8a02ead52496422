/**
 * The records the service stores and passes around: a peer, the server's
 * interface and key pair, the global settings, and the errors the core can
 * return. Timestamps are opaque integers (`time.Time` in UTC).
 */
module Model {
  import opened Wrappers

  type Time = int

  /** One WireGuard client as stored in the `clients` collection. */
  datatype Peer = Peer(
    id: string,
    privateKey: string,
    publicKey: string,
    presharedKey: string,
    name: string,
    email: string,
    allocatedIPs: seq<string>,
    allowedIPs: seq<string>,
    extraAllowedIPs: seq<string>,
    useServerDNS: bool,
    enabled: bool,
    createdAt: Time,
    updatedAt: Time)

  /** Go's zero `model.Peer{}`. */
  const EmptyPeer: Peer := Peer("", "", "", "", "", "", [], [], [], false, false, 0, 0)

  datatype ServerInterface = ServerInterface(
    addresses: seq<string>,
    listenPort: int,
    postUp: string,
    postDown: string,
    updatedAt: Time)

  datatype ServerKeypair = ServerKeypair(privateKey: string, publicKey: string, updatedAt: Time)

  datatype Server = Server(iface: ServerInterface, keyPair: ServerKeypair)

  datatype GlobalSetting = GlobalSetting(
    endpointAddress: string,
    dnsServers: seq<string>,
    mtu: int,
    persistentKeepalive: int,
    forwardMark: string,
    configFilePath: string,
    updatedAt: Time)

  /** A peer as the store hands it out; `peer` is None where Go has a nil pointer. */
  datatype PeerData = PeerData(peer: Option<Peer>, qrCode: string, peerConfig: string)

  /** Everything `writeWireGuardServerConfig` is given to render the server's config file. */
  datatype HubConfig = HubConfig(server: Server, peers: seq<PeerData>, settings: GlobalSetting)

  datatype Error =
    | CidrParse(text: string)              // net.ParseCIDR's *ParseError
    | InvalidAllocation(cidr: string)      // a candidate that is not in CIDR form
    | AlreadyAllocated(ip: string)         // a candidate address already in use
    | OutsideServerNetworks(ip: string)    // a candidate outside every server network
    | NotFound(collection: string, resource: string) // a record the database does not hold
    | Foreign(reason: string)              // an error from I/O or a library outside the model
}
