/**
 * `internal/service/WireguardService.go`: the service that creates, edits
 * and deletes peers over the JSON database and rewrites the server's
 * WireGuard configuration after a creation.
 *
 * The service object holds the database as a value it replaces; the other
 * effects of the Go code are given to each call as an `Env`: the fresh
 * UUID, the clock, the key generators, the key parser, `GetAvailableIP` and
 * the configuration writer `writeWireGuardServerConfig`.
 */
module Service {
  import opened Wrappers
  import opened Text
  import opened Net
  import opened Model
  import opened Store
  import opened Util
  import opened Allocation

  /** A key pair from `wgtypes.GeneratePrivateKey` and its `PublicKey`. */
  datatype KeyPair = KeyPair(privateKey: string, publicKey: string)

  /** What a call draws from outside the model. */
  datatype Env = Env(
    newID: string,                                           // uuid.NewV4().String()
    now: Time,                                               // time.Now().UTC()
    keyPair: Result<KeyPair, Error>,                         // wgtypes.GeneratePrivateKey
    presharedKey: Result<string, Error>,                     // wgtypes.GenerateKey
    parseKey: string -> Option<Error>,                       // wgtypes.ParseKey, its error only
    availableIP: (string, seq<string>) -> Result<string, Error>, // util.GetAvailableIP
    writeConfig: HubConfig -> Option<Error>)                 // writeWireGuardServerConfig

  /** What a service call hands back: Go's value and error, or a panic inside `ValidateIPAllocation`. */
  datatype Reply<T> = Reply(value: T, err: Option<Error>) | Panicked

  // ---------------------------------------------------------------- suggested addresses

  /** The single-host CIDR for a suggested address: `/128` for IPv6 text, `/32` otherwise. */
  function HostCidr(ip: string): string
  {
    if ':' in ip then ip + "/128" else ip + "/32"
  }

  /** One suggested address per server range, in order; the first range without one stops the loop. */
  function Suggest(ranges: seq<string>, inUse: seq<string>, available: (string, seq<string>) -> Result<string, Error>)
    : Result<seq<string>, Error>
    decreases |ranges|
  {
    if |ranges| == 0 then Success([])
    else
      match available(ranges[0], inUse)
      case Failure(e) => Failure(e)
      case Success(ip) => Prepend([HostCidr(ip)], Suggest(ranges[1..], inUse, available))
  }

  /** The loop of `CreateNew` that asks `GetAvailableIP` for each server range. */
  method SuggestIPs(ranges: seq<string>, inUse: seq<string>, available: (string, seq<string>) -> Result<string, Error>)
    returns (r: Result<seq<string>, Error>)
    ensures r == Suggest(ranges, inUse, available)
  {
    var suggested: seq<string> := [];
    assert ranges[0..] == ranges;
    if Suggest(ranges, inUse, available).Success? {
      assert [] + Suggest(ranges, inUse, available).value == Suggest(ranges, inUse, available).value;
    }
    for k := 0 to |ranges|
      invariant Suggest(ranges, inUse, available) == Prepend(suggested, Suggest(ranges[k..], inUse, available))
    {
      assert ranges[k..][0] == ranges[k] && ranges[k..][1..] == ranges[k + 1..];
      var ip := available(ranges[k], inUse);
      if ip.Failure? {
        return Failure(ip.error);
      }
      PrependAssoc(suggested, [HostCidr(ip.value)], Suggest(ranges[k + 1..], inUse, available));
      suggested := suggested + [HostCidr(ip.value)];
    }
    assert ranges[|ranges|..] == [];
    assert suggested + [] == suggested;
    return Success(suggested);
  }

  /**
   * The suggestions are one host CIDR per server range, each built from the
   * address `GetAvailableIP` returned for that range; otherwise the error is
   * that of the first range it fails on.
   */
  lemma {:induction false} SuggestMeaning(ranges: seq<string>, inUse: seq<string>, available: (string, seq<string>) -> Result<string, Error>)
    ensures Suggest(ranges, inUse, available).Success? <==> forall i :: 0 <= i < |ranges| ==> available(ranges[i], inUse).Success?
    ensures Suggest(ranges, inUse, available).Success? ==>
      var v := Suggest(ranges, inUse, available).value;
      |v| == |ranges| &&
      forall i :: 0 <= i < |ranges| ==> v[i] == HostCidr(available(ranges[i], inUse).value)
    ensures Suggest(ranges, inUse, available).Failure? ==>
      exists k :: 0 <= k < |ranges| && available(ranges[k], inUse) == Failure(Suggest(ranges, inUse, available).error) &&
        forall j :: 0 <= j < k ==> available(ranges[j], inUse).Success?
    decreases |ranges|
  {
    if |ranges| > 0 {
      var tail := ranges[1..];
      SuggestMeaning(tail, inUse, available);
      assert forall i :: 0 < i < |ranges| ==> ranges[i] == tail[i - 1];
      if available(ranges[0], inUse).Success? && Suggest(tail, inUse, available).Failure? {
        var k :| 0 <= k < |tail| && available(tail[k], inUse) == Failure(Suggest(tail, inUse, available).error) &&
          forall j :: 0 <= j < k ==> available(tail[j], inUse).Success?;
        assert ranges[k + 1] == tail[k];
      }
    }
  }

  /**
   * A suggested IPv4 address becomes the `/32` CIDR of exactly that
   * address, so the allocation check reads back the address
   * `GetAvailableIP` returned.
   */
  lemma HostCidrV4(x: U32)
    ensures HostCidr(FormatV4(x)) == FormatCidr(Cidr(V4(x), 32))
    ensures ParseCidr(HostCidr(FormatV4(x))) == Some(Cidr(V4(x), 32))
    ensures GetIPFromCIDR(HostCidr(FormatV4(x))) == Success(FormatV4(x))
  {
    var v := FormatV4(x);
    FormatV4Shape(x);
    assert ':' !in v by {
      forall i | 0 <= i < |v| ensures v[i] != ':' { assert IsDigit(v[i]) || v[i] == '.'; }
    }
    assert FormatNat(32) == "32";
    ParseCidrFormatV4(x, 32);
  }

  lemma SuggestOne(range: string, inUse: seq<string>, available: (string, seq<string>) -> Result<string, Error>, ip: string)
    requires available(range, inUse) == Success(ip)
    ensures Suggest([range], inUse, available) == Success([HostCidr(ip)])
  {
    assert [range][1..] == [];
    assert [HostCidr(ip)] + [] == [HostCidr(ip)];
  }

  // ---------------------------------------------------------------- CreateNew up to the save

  /** The checks of `CreateNew` before anything is written, and the peer they leave. */
  datatype Prepared = Ready(peer: Peer) | Stopped(peer: Peer, err: Option<Error>) | Crashed

  /**
   * Where the addresses in use are read from: the `peers` collection, as
   * `GetAllocatedIPs` has it, or the `clients` collection, where the peers
   * are stored.
   */
  datatype Reading = AsWritten | Corrected

  /** The addresses in use as `CreateNew` and `EditPeer` see them: an error is dropped and leaves none. */
  function InUse(db: Db, ignore: string, read: Reading): (ips: seq<string>)
    ensures read == AsWritten && db.peers.None? ==> ips == []
    ensures read == Corrected && AllocatedIPs(db, ignore).Success? ==> ips == AllocatedIPs(db, ignore).value
  {
    match (if read == AsWritten then AllocatedIPsAsWritten(db, ignore) else AllocatedIPs(db, ignore))
    case Success(ips) => ips
    case Failure(_) => []
  }

  /** A stored peer already uses the public key. */
  predicate KeyTaken(ds: seq<PeerData>, key: string)
  {
    exists i :: 0 <= i < |ds| && ds[i].peer.Some? && ds[i].peer.value.publicKey == key
  }

  /** The public key step: generate a pair for an empty key, otherwise parse it and refuse one in use. */
  function KeyStage(db: Db, p: Peer, env: Env): Prepared
  {
    if p.publicKey == "" then
      match env.keyPair
      case Failure(e) => Stopped(p, Some(e))
      case Success(kp) => Ready(p.(privateKey := kp.privateKey, publicKey := kp.publicKey))
    else if env.parseKey(p.publicKey).Some? then Stopped(p, env.parseKey(p.publicKey))
    else
      match GetPeers(db)
      case Failure(e) => Stopped(p, Some(e))
      case Success(ds) => if KeyTaken(ds, p.publicKey) then Stopped(p, None) else Ready(p)
  }

  /** The preshared key step: generate one for an empty key, clear it for "-", otherwise parse it. */
  function PresharedStage(p: Peer, env: Env): Prepared
  {
    if p.presharedKey == "" then
      match env.presharedKey
      case Failure(e) => Stopped(p, Some(e))
      case Success(k) => Ready(p.(presharedKey := k))
    else if p.presharedKey == "-" then Ready(p.(presharedKey := ""))
    else if env.parseKey(p.presharedKey).Some? then Stopped(p, env.parseKey(p.presharedKey))
    else Ready(p)
  }

  /** The key steps on a peer that passed validation, then the timestamps. */
  function KeysAndStamp(db: Db, p: Peer, env: Env): Prepared
  {
    match KeyStage(db, p.(id := env.newID), env)
    case Ready(q) =>
      (match PresharedStage(q, env)
       case Ready(r) => Ready(r.(createdAt := env.now, updatedAt := env.now))
       case other => other)
    case other => other
  }

  /** The address and CIDR checks once the suggestions `ips` are on the peer. */
  function Validated(db: Db, servers: seq<string>, inUse: seq<string>, p: Peer, env: Env): Prepared
  {
    match AllocationVerdict(servers, inUse, p.allocatedIPs)
    case Panic => Crashed
    case Reject(e) => Stopped(p, Some(e))
    case Pass =>
      if !CidrListOk(p.allowedIPs, false) then Stopped(p, None)
      else if !CidrListOk(p.extraAllowedIPs, true) then Stopped(p, None)
      else KeysAndStamp(db, p, env)
  }

  /** `CreateNew` up to `SavePeer`. */
  function Prepare(db: Db, peer: Peer, env: Env, read: Reading): Prepared
  {
    match GetServer(db)
    case Failure(e) => Stopped(peer, Some(e))
    case Success(server) =>
      var inUse := InUse(db, "", read);
      match Suggest(server.iface.addresses, inUse, env.availableIP)
      case Failure(e) => Stopped(peer, Some(e))
      case Success(ips) => Validated(db, server.iface.addresses, inUse, peer.(allocatedIPs := ips), env)
  }

  // ---------------------------------------------------------------- the service operations

  /** `applyConfig`: read the server, the peers and the settings, then write the configuration. */
  function Apply(db: Db, write: HubConfig -> Option<Error>): Option<Error>
  {
    match GetServer(db)
    case Failure(e) => Some(e)
    case Success(server) =>
      match GetPeers(db)
      case Failure(e) => Some(e)
      case Success(peers) =>
        match GetGlobalSettings(db)
        case Failure(e) => Some(e)
        case Success(settings) => write(HubConfig(server, peers, settings))
  }

  /** `CreateNew`: the new database and the reply. */
  function Create(db: Db, peer: Peer, env: Env, read: Reading): (Db, Reply<Peer>)
    requires Valid(db)
  {
    match Prepare(db, peer, env, read)
    case Crashed => (db, Panicked)
    case Stopped(p, e) => (db, Reply(p, e))
    case Ready(p) =>
      var (saved, e) := SavePeer(db, p);
      if e.Some? then (db, Reply(p, e))
      else
        match Apply(saved, env.writeConfig)
        case Some(e2) => (saved, Reply(EmptyPeer, Some(e2)))
        case None => (saved, Reply(p, None))
  }

  /** The stored peer with the seven fields `EditPeer` takes from the request. */
  function Edited(stored: Peer, value: Peer, now: Time): Peer
  {
    stored.(name := value.name, email := value.email, enabled := value.enabled,
            useServerDNS := value.useServerDNS, allocatedIPs := value.allocatedIPs,
            allowedIPs := value.allowedIPs, updatedAt := now)
  }

  /** `EditPeer`: the new database and the reply, which carries the record as it was before the edit. */
  function Edit(db: Db, id: string, value: Peer, now: Time, read: Reading): (Db, Reply<PeerData>)
    requires Valid(db)
  {
    var (data, e) := GetPeerByID(db, id);
    if e.Some? then (db, Reply(data, e))
    else
      match GetServer(db)
      case Failure(e1) => (db, Reply(data, Some(e1)))
      case Success(server) =>
        var stored := data.peer.value;
        match AllocationVerdict(server.iface.addresses, InUse(db, stored.id, read), stored.allocatedIPs)
        case Panic => (db, Panicked)
        case Reject(e2) => (db, Reply(data, Some(e2)))
        case Pass =>
          if !CidrListOk(stored.allowedIPs, false) then (db, Reply(data, None))
          else
            var (saved, e3) := SavePeer(db, Edited(stored, value, now));
            if e3.Some? then (db, Reply(data, e3)) else (saved, Reply(data, None))
  }

  // ---------------------------------------------------------------- what CreateNew promises

  /** The public key step changes at most the key pair; an empty key is replaced by a generated pair, any other must parse and be unused. */
  lemma KeyStageReady(db: Db, p: Peer, env: Env)
    requires KeyStage(db, p, env).Ready?
    ensures var q := KeyStage(db, p, env).peer;
      q.(privateKey := p.privateKey, publicKey := p.publicKey) == p &&
      (p.publicKey == "" ==> env.keyPair == Success(KeyPair(q.privateKey, q.publicKey))) &&
      (p.publicKey != "" ==>
        q == p && env.parseKey(p.publicKey).None? && db.listFault.None? &&
        forall i :: 0 <= i < |db.clients| ==> db.clients[i].publicKey != p.publicKey)
  {
    if p.publicKey != "" {
      var ds := GetPeers(db).value;
      forall i | 0 <= i < |db.clients| ensures db.clients[i].publicKey != p.publicKey {
        assert ds[i].peer == Some(db.clients[i]);
      }
    }
  }

  /** The preshared key step changes at most the preshared key. */
  lemma PresharedReady(p: Peer, env: Env)
    requires PresharedStage(p, env).Ready?
    ensures var q := PresharedStage(p, env).peer;
      q.(presharedKey := p.presharedKey) == p &&
      (p.presharedKey == "" ==> env.presharedKey == Success(q.presharedKey)) &&
      (p.presharedKey == "-" ==> q.presharedKey == "") &&
      (p.presharedKey != "" && p.presharedKey != "-" ==> q == p && env.parseKey(p.presharedKey).None?)
  {
  }

  /** A peer that passes the checks reaches `SavePeer` as the one the key steps and the stamp leave. */
  lemma PrepareUnfold(db: Db, peer: Peer, env: Env, read: Reading)
    requires Prepare(db, peer, env, read).Ready?
    ensures GetServer(db).Success?
    ensures var ranges := GetServer(db).value.iface.addresses;
      var sug := Suggest(ranges, InUse(db, "", read), env.availableIP);
      sug.Success? &&
      AllocationVerdict(ranges, InUse(db, "", read), sug.value) == Pass &&
      CidrListOk(peer.allowedIPs, false) && CidrListOk(peer.extraAllowedIPs, true) &&
      var k := peer.(allocatedIPs := sug.value, id := env.newID);
      KeyStage(db, k, env).Ready? && PresharedStage(KeyStage(db, k, env).peer, env).Ready? &&
      Prepare(db, peer, env, read).peer ==
        PresharedStage(KeyStage(db, k, env).peer, env).peer.(createdAt := env.now, updatedAt := env.now)
  {
    var ranges := GetServer(db).value.iface.addresses;
    var sug := Suggest(ranges, InUse(db, "", read), env.availableIP);
    var p1 := peer.(allocatedIPs := sug.value);
    assert Prepare(db, peer, env, read) == Validated(db, ranges, InUse(db, "", read), p1, env);
    assert Validated(db, ranges, InUse(db, "", read), p1, env) == KeysAndStamp(db, p1, env);
  }

  /**
   * A peer that reaches `SavePeer` carries one suggested address per server
   * range, has passed the allocation and CIDR checks, has the new id and
   * equal creation and update times, and keeps every field of the request
   * other than its id, keys, addresses and timestamps.
   */
  lemma PrepareReady(db: Db, peer: Peer, env: Env, read: Reading)
    requires Prepare(db, peer, env, read).Ready?
    ensures GetServer(db).Success?
    ensures var p := Prepare(db, peer, env, read).peer;
      var ranges := GetServer(db).value.iface.addresses;
      Suggest(ranges, InUse(db, "", read), env.availableIP) == Success(p.allocatedIPs) &&
      AllocationVerdict(ranges, InUse(db, "", read), p.allocatedIPs) == Pass &&
      CidrListOk(peer.allowedIPs, false) && CidrListOk(peer.extraAllowedIPs, true) &&
      p.id == env.newID && p.createdAt == env.now && p.updatedAt == env.now &&
      p.(id := peer.id, privateKey := peer.privateKey, publicKey := peer.publicKey,
         presharedKey := peer.presharedKey, allocatedIPs := peer.allocatedIPs,
         createdAt := peer.createdAt, updatedAt := peer.updatedAt) == peer
  {
    PrepareUnfold(db, peer, env, read);
    var sug := Suggest(GetServer(db).value.iface.addresses, InUse(db, "", read), env.availableIP);
    var k := peer.(allocatedIPs := sug.value, id := env.newID);
    KeyStageReady(db, k, env);
    PresharedReady(KeyStage(db, k, env).peer, env);
  }

  /**
   * The public key policy: an empty key is replaced by a generated pair;
   * any other key is kept only if it parses and no stored peer uses it.
   */
  lemma PrepareKeys(db: Db, peer: Peer, env: Env, read: Reading)
    requires Prepare(db, peer, env, read).Ready?
    ensures var p := Prepare(db, peer, env, read).peer;
      (peer.publicKey == "" ==> env.keyPair == Success(KeyPair(p.privateKey, p.publicKey))) &&
      (peer.publicKey != "" ==>
        p.publicKey == peer.publicKey && p.privateKey == peer.privateKey &&
        env.parseKey(peer.publicKey).None? && db.listFault.None? &&
        forall i :: 0 <= i < |db.clients| ==> db.clients[i].publicKey != peer.publicKey)
  {
    PrepareUnfold(db, peer, env, read);
    var sug := Suggest(GetServer(db).value.iface.addresses, InUse(db, "", read), env.availableIP);
    var k := peer.(allocatedIPs := sug.value, id := env.newID);
    KeyStageReady(db, k, env);
    PresharedReady(KeyStage(db, k, env).peer, env);
  }

  /**
   * The preshared key policy: an empty key is replaced by a generated one,
   * "-" stands for no key, and any other key is kept only if it parses.
   */
  lemma PreparePreshared(db: Db, peer: Peer, env: Env, read: Reading)
    requires Prepare(db, peer, env, read).Ready?
    ensures var p := Prepare(db, peer, env, read).peer;
      (peer.presharedKey == "" ==> env.presharedKey == Success(p.presharedKey)) &&
      (peer.presharedKey == "-" ==> p.presharedKey == "") &&
      (peer.presharedKey != "" && peer.presharedKey != "-" ==>
        p.presharedKey == peer.presharedKey && env.parseKey(peer.presharedKey).None?)
  {
    PrepareUnfold(db, peer, env, read);
    var sug := Suggest(GetServer(db).value.iface.addresses, InUse(db, "", read), env.availableIP);
    var k := peer.(allocatedIPs := sug.value, id := env.newID);
    KeyStageReady(db, k, env);
    PresharedReady(KeyStage(db, k, env).peer, env);
  }

  /** Until the peer reaches `SavePeer` the database is left as it was, whatever the reply. */
  lemma CreateStops(db: Db, peer: Peer, env: Env, read: Reading)
    requires Valid(db) && !Prepare(db, peer, env, read).Ready?
    ensures Create(db, peer, env, read).0 == db
    ensures Prepare(db, peer, env, read).Crashed? <==> Create(db, peer, env, read).1.Panicked?
    ensures Prepare(db, peer, env, read).Stopped? ==>
      Create(db, peer, env, read).1 == Reply(Prepare(db, peer, env, read).peer, Prepare(db, peer, env, read).err)
  {
  }

  /**
   * A peer that reaches `SavePeer` is saved once, under the new id, and
   * nothing else in the database changes. A failing `applyConfig` keeps the
   * saved record but answers with the zero peer and its error.
   */
  lemma CreateSaves(db: Db, peer: Peer, env: Env, read: Reading)
    requires Valid(db) && Prepare(db, peer, env, read).Ready?
    ensures var p := Prepare(db, peer, env, read).peer;
      var (after, reply) := Create(db, peer, env, read);
      (db.writeFault.Some? ==> after == db && reply == Reply(p, db.writeFault)) &&
      (db.writeFault.None? ==>
        after == db.(clients := after.clients) &&
        Records(after.clients) == Records(db.clients)[env.newID := p] &&
        reply == (if Apply(after, env.writeConfig).Some? then Reply(EmptyPeer, Apply(after, env.writeConfig))
                  else Reply(p, None)))
  {
    PrepareReady(db, peer, env, read);
  }

  /**
   * The three exits of `CreateNew` that answer with no error and save
   * nothing: allowed IPs that do not parse, extra allowed IPs that do not
   * parse, and a public key some stored peer already has.
   */
  lemma CreateNilErrors(db: Db, peer: Peer, env: Env, read: Reading)
    requires Valid(db) && GetServer(db).Success?
    requires Suggest(GetServer(db).value.iface.addresses, InUse(db, "", read), env.availableIP).Success?
    requires AllocationVerdict(GetServer(db).value.iface.addresses, InUse(db, "", read),
      Suggest(GetServer(db).value.iface.addresses, InUse(db, "", read), env.availableIP).value) == Pass
    ensures var p := peer.(allocatedIPs := Suggest(GetServer(db).value.iface.addresses, InUse(db, "", read), env.availableIP).value);
      (!CidrListOk(peer.allowedIPs, false) ==> Create(db, peer, env, read) == (db, Reply(p, None))) &&
      (CidrListOk(peer.allowedIPs, false) && !CidrListOk(peer.extraAllowedIPs, true) ==>
        Create(db, peer, env, read) == (db, Reply(p, None))) &&
      (CidrListOk(peer.allowedIPs, false) && CidrListOk(peer.extraAllowedIPs, true) &&
       peer.publicKey != "" && env.parseKey(peer.publicKey).None? && db.listFault.None? &&
       (exists i :: 0 <= i < |db.clients| && db.clients[i].publicKey == peer.publicKey) ==>
        Create(db, peer, env, read) == (db, Reply(p.(id := env.newID), None)))
  {
    var ranges, inUse := GetServer(db).value.iface.addresses, InUse(db, "", read);
    var p := peer.(allocatedIPs := Suggest(ranges, inUse, env.availableIP).value);
    assert Prepare(db, peer, env, read) == Validated(db, ranges, inUse, p, env);
    if CidrListOk(peer.allowedIPs, false) && CidrListOk(peer.extraAllowedIPs, true) &&
       peer.publicKey != "" && env.parseKey(peer.publicKey).None? && db.listFault.None? &&
       (exists i :: 0 <= i < |db.clients| && db.clients[i].publicKey == peer.publicKey)
    {
      var i :| 0 <= i < |db.clients| && db.clients[i].publicKey == peer.publicKey;
      assert GetPeers(db).value[i].peer == Some(db.clients[i]);
      assert KeyStage(db, p.(id := env.newID), env) == Stopped(p.(id := env.newID), None);
    }
  }

  /** The addresses a caller puts on the new peer are never looked at: the suggestions replace them. */
  lemma CreateIgnoresRequestedAddresses(db: Db, peer: Peer, env: Env, read: Reading, requested: seq<string>)
    requires Valid(db)
    ensures Create(db, peer.(allocatedIPs := requested), env, read).0 == Create(db, peer, env, read).0
  {
    var q := peer.(allocatedIPs := requested);
    if GetServer(db).Success? {
      var sug := Suggest(GetServer(db).value.iface.addresses, InUse(db, "", read), env.availableIP);
      if sug.Success? {
        assert q.(allocatedIPs := sug.value) == peer.(allocatedIPs := sug.value);
      }
    }
  }

  /** With one server range, `CreateNew` checks the single host CIDR of the address `GetAvailableIP` suggests. */
  lemma PrepareOneRange(db: Db, peer: Peer, env: Env, read: Reading, ip: string)
    requires GetServer(db).Success? && |GetServer(db).value.iface.addresses| == 1
    requires env.availableIP(GetServer(db).value.iface.addresses[0], InUse(db, "", read)) == Success(ip)
    ensures Prepare(db, peer, env, read) ==
      Validated(db, GetServer(db).value.iface.addresses, InUse(db, "", read), peer.(allocatedIPs := [HostCidr(ip)]), env)
  {
    var ranges := GetServer(db).value.iface.addresses;
    assert ranges == [ranges[0]];
    SuggestOne(ranges[0], InUse(db, "", read), env.availableIP, ip);
  }

  /** A database of one server CIDR `x/n` and one client at `y/32` inside it, with no `peers` collection. */
  predicate OneClientDb(db: Db, x: U32, n: nat, y: U32)
  {
    n <= 32 && Prefix(y, 32, n) == Prefix(x, 32, n) &&
    Valid(db) && db.keypair.Some? &&
    db.interfaces.Some? && db.interfaces.value.addresses == [FormatCidr(Cidr(V4(x), n))] &&
    db.peers.None? && db.listFault.None? &&
    |db.clients| == 1 && db.clients[0].id != "" && db.clients[0].allocatedIPs == [HostCidr(FormatV4(y))]
  }

  /**
   * The `peers` read of `GetAllocatedIPs` reaches `CreateNew`: the Go code
   * hands `GetAvailableIP` an empty in-use list, and if it suggests the
   * client's address `y` again the new peer passes the allocation check and,
   * once the CIDR and key checks pass, is prepared for saving with the
   * client's own address.
   */
  lemma CreateReusesClientAddress(db: Db, peer: Peer, env: Env, x: U32, n: nat, y: U32)
    requires OneClientDb(db, x, n, y)
    requires env.availableIP(FormatCidr(Cidr(V4(x), n)), []) == Success(FormatV4(y))
    ensures InUse(db, "", AsWritten) == []
    ensures var p := peer.(allocatedIPs := db.clients[0].allocatedIPs);
      AllocationVerdict(db.interfaces.value.addresses, [], p.allocatedIPs) == Pass &&
      Prepare(db, peer, env, AsWritten) == Validated(db, db.interfaces.value.addresses, [], p, env)
    ensures Prepare(db, peer, env, AsWritten).Ready? ==>
      Prepare(db, peer, env, AsWritten).peer.allocatedIPs == db.clients[0].allocatedIPs
  {
    HostCidrV4(y);
    PeersCollectionMissesClients(db, x, n, y, 32);
    PrepareOneRange(db, peer, env, AsWritten, FormatV4(y));
    if Prepare(db, peer, env, AsWritten).Ready? {
      PrepareReady(db, peer, env, AsWritten);
      SuggestOne(db.interfaces.value.addresses[0], [], env.availableIP, FormatV4(y));
    }
  }

  /**
   * Reading `clients`, where the peers are stored, the in-use list holds the
   * server's and the client's addresses, and a suggestion of the client's
   * address is refused as already allocated: nothing is saved.
   */
  lemma CreateRefusesClientAddress(db: Db, peer: Peer, env: Env, x: U32, n: nat, y: U32)
    requires OneClientDb(db, x, n, y)
    requires env.availableIP(FormatCidr(Cidr(V4(x), n)), [FormatV4(x), FormatV4(y)]) == Success(FormatV4(y))
    ensures InUse(db, "", Corrected) == [FormatV4(x), FormatV4(y)]
    ensures Create(db, peer, env, Corrected) ==
      (db, Reply(peer.(allocatedIPs := db.clients[0].allocatedIPs), Some(AlreadyAllocated(FormatV4(y)))))
  {
    HostCidrV4(y);
    PeersCollectionMissesClients(db, x, n, y, 32);
    PrepareOneRange(db, peer, env, Corrected, FormatV4(y));
  }

  // ---------------------------------------------------------------- what EditPeer promises

  /** `EditPeer` gets as far as `SavePeer`: decided by the stored record alone, not by the request. */
  predicate EditReaches(db: Db, id: string, read: Reading)
  {
    id in Records(db.clients) && GetServer(db).Success? &&
    AllocationVerdict(GetServer(db).value.iface.addresses, InUse(db, id, read), Records(db.clients)[id].allocatedIPs) == Pass &&
    CidrListOk(Records(db.clients)[id].allowedIPs, false)
  }

  /** An unknown id is reported as not found and nothing is saved. */
  lemma EditUnknown(db: Db, id: string, value: Peer, now: Time, read: Reading)
    requires Valid(db) && id !in Records(db.clients)
    ensures Edit(db, id, value, now, read) == (db, Reply(PeerData(None, "", ""), Some(NotFound("clients", id))))
  {
  }

  /**
   * `EditPeer` checks the record as stored and saves the request's seven
   * fields over it unchecked; the rest of the record and its id stay, and
   * the reply always carries the record as it was before the edit.
   */
  lemma EditOutcome(db: Db, id: string, value: Peer, now: Time, read: Reading)
    requires Valid(db) && id in Records(db.clients)
    ensures var (after, reply) := Edit(db, id, value, now, read);
      var stored := Records(db.clients)[id];
      (reply.Reply? ==> reply.value == PeerData(Some(stored), "", "")) &&
      (!EditReaches(db, id, read) ==> after == db) &&
      (EditReaches(db, id, read) ==> reply == Reply(PeerData(Some(stored), "", ""), db.writeFault)) &&
      (EditReaches(db, id, read) && db.writeFault.None? ==>
        after == db.(clients := after.clients) &&
        Records(after.clients) == Records(db.clients)[id := Edited(stored, value, now)])
    ensures var e := Edited(Records(db.clients)[id], value, now);
      var stored := Records(db.clients)[id];
      e.id == id && e.privateKey == stored.privateKey && e.publicKey == stored.publicKey &&
      e.presharedKey == stored.presharedKey && e.extraAllowedIPs == stored.extraAllowedIPs &&
      e.createdAt == stored.createdAt &&
      e.name == value.name && e.email == value.email && e.enabled == value.enabled &&
      e.useServerDNS == value.useServerDNS && e.allocatedIPs == value.allocatedIPs &&
      e.allowedIPs == value.allowedIPs && e.updatedAt == now
  {
    RecordsKeyed(db.clients, id);
  }

  /**
   * The exits of `EditPeer` before the save, all with the store unchanged
   * and the record as it was: a failing server read with its error, a
   * rejected allocation with the check's error, the panic, and stored
   * allowed IPs that do not parse with a nil error.
   */
  lemma EditStops(db: Db, id: string, value: Peer, now: Time, read: Reading)
    requires Valid(db) && id in Records(db.clients)
    ensures var data := PeerData(Some(Records(db.clients)[id]), "", "");
      GetServer(db).Failure? ==> Edit(db, id, value, now, read) == (db, Reply(data, Some(GetServer(db).error)))
    ensures var stored := Records(db.clients)[id];
      var data := PeerData(Some(stored), "", "");
      GetServer(db).Success? ==>
        var v := AllocationVerdict(GetServer(db).value.iface.addresses, InUse(db, id, read), stored.allocatedIPs);
        (v == Panic ==> Edit(db, id, value, now, read) == (db, Panicked)) &&
        (v.Reject? ==> Edit(db, id, value, now, read) == (db, Reply(data, Some(v.err)))) &&
        (v == Pass && !CidrListOk(stored.allowedIPs, false) ==> Edit(db, id, value, now, read) == (db, Reply(data, None)))
  {
    RecordsKeyed(db.clients, id);
  }

  /** No server CIDR and no record other than `id` yields the address `r`. */
  predicate Unshared(db: Db, id: string, r: Result<string, Error>)
  {
    (db.interfaces.Some? ==> forall c :: c in db.interfaces.value.addresses ==> GetIPFromCIDR(c) != r) &&
    (forall q, c :: q in db.clients && q.id != id && c in q.allocatedIPs ==> GetIPFromCIDR(c) != r)
  }

  /**
   * The stored record's own addresses are not counted as in use when it is
   * edited, so an allocation that still lies in the server networks and
   * that no other record or server address shares passes again.
   */
  lemma EditOwnAllocationPasses(db: Db, id: string)
    requires id in Records(db.clients) && GetServer(db).Success? && AllocatedIPs(db, id).Success?
    requires forall k :: 0 <= k < |db.interfaces.value.addresses| ==> ParseCidr(db.interfaces.value.addresses[k]).Some?
    requires var own := Records(db.clients)[id].allocatedIPs;
      forall i :: 0 <= i < |own| ==>
        ParseCidr(own[i]).Some? && Unshared(db, id, GetIPFromCIDR(own[i])) &&
        exists k :: 0 <= k < |db.interfaces.value.addresses| &&
          NetHolds(ParseCidr(db.interfaces.value.addresses[k]), ParseCidr(own[i]).value.addr)
    ensures AllocationVerdict(GetServer(db).value.iface.addresses, InUse(db, id, Corrected), Records(db.clients)[id].allocatedIPs) == Pass
  {
    var servers := db.interfaces.value.addresses;
    var own := Records(db.clients)[id].allocatedIPs;
    var inUse := AllocatedIPs(db, id).value;
    forall i | 0 <= i < |own| ensures Acceptable(servers, inUse, own[i]) {
      var ip := FormatAddr(ParseCidr(own[i]).value.addr);
      AllocatedMembers(db, id, ip);
    }
    AllocationPassIff(servers, inUse, own);
  }

  /**
   * As `GetAllocatedIPs` reads them, with no `peers` collection no address counts
   * as in use when a record is edited: its allocation passes exactly when
   * every address lies in a server network, whoever else holds it.
   */
  lemma EditAsWrittenIgnoresOthers(db: Db, id: string)
    requires id in Records(db.clients) && GetServer(db).Success? && db.peers.None?
    requires forall k :: 0 <= k < |db.interfaces.value.addresses| ==> ParseCidr(db.interfaces.value.addresses[k]).Some?
    ensures var servers, own := db.interfaces.value.addresses, Records(db.clients)[id].allocatedIPs;
      AllocationVerdict(servers, InUse(db, id, AsWritten), own) == Pass <==>
        forall i :: 0 <= i < |own| ==>
          ParseCidr(own[i]).Some? &&
          exists k :: 0 <= k < |servers| && NetHolds(ParseCidr(servers[k]), ParseCidr(own[i]).value.addr)
  {
    var servers, own := db.interfaces.value.addresses, Records(db.clients)[id].allocatedIPs;
    AllocationPassIff(servers, [], own);
  }

  // ---------------------------------------------------------------- what applyConfig promises

  /** With the server, the peers and the settings readable, the writer gets exactly them. */
  lemma ApplyWrites(db: Db, write: HubConfig -> Option<Error>)
    requires db.interfaces.Some? && db.keypair.Some? && db.listFault.None? && db.settings.Some?
    ensures Apply(db, write) == write(HubConfig(Server(db.interfaces.value, db.keypair.value), Wrap(db.clients), db.settings.value))
  {
  }

  /** A failing read stops `applyConfig` before the writer is called, with the first failing read's error. */
  lemma ApplyStopsEarly(db: Db, write: HubConfig -> Option<Error>, other: HubConfig -> Option<Error>)
    requires db.interfaces.None? || db.keypair.None? || db.listFault.Some? || db.settings.None?
    ensures Apply(db, write) == Apply(db, other)
    ensures Apply(db, write) ==
      if db.interfaces.None? then Some(NotFound("server", "interfaces"))
      else if db.keypair.None? then Some(NotFound("server", "keypair"))
      else if db.listFault.Some? then db.listFault
      else Some(NotFound("server", "global_settings"))
  {
  }

  // ---------------------------------------------------------------- the service object

  /** The duplicate scan of `CreateNew` over the stored peers. */
  method FindKey(peers: seq<PeerData>, key: string) returns (taken: bool)
    requires forall i :: 0 <= i < |peers| ==> peers[i].peer.Some?
    ensures taken <==> KeyTaken(peers, key)
  {
    for i := 0 to |peers|
      invariant forall j :: 0 <= j < i ==> peers[j].peer.value.publicKey != key
    {
      if peers[i].peer.value.publicKey == key {
        return true;
      }
    }
    return false;
  }

  class WireguardService {
    var store: Db

    predicate Valid()
      reads this
    {
      Store.Valid(store)
    }

    constructor (store: Db)
      requires Store.Valid(store)
      ensures this.store == store && Valid()
    {
      this.store := store;
    }

    /** The key steps and timestamps of `CreateNew`, on the current database. */
    method KeysAndStampNew(p: Peer, env: Env) returns (pr: Prepared)
      ensures pr == KeysAndStamp(store, p, env)
    {
      var peer := p.(id := env.newID);
      if peer.publicKey == "" {
        if env.keyPair.Failure? {
          return Stopped(peer, Some(env.keyPair.error));
        }
        peer := peer.(privateKey := env.keyPair.value.privateKey, publicKey := env.keyPair.value.publicKey);
      } else {
        var bad := env.parseKey(peer.publicKey);
        if bad.Some? {
          return Stopped(peer, bad);
        }
        var peers := GetPeers(store);
        if peers.Failure? {
          return Stopped(peer, Some(peers.error));
        }
        var taken := FindKey(peers.value, peer.publicKey);
        if taken {
          return Stopped(peer, None);
        }
      }
      assert KeyStage(store, p.(id := env.newID), env) == Ready(peer);
      if peer.presharedKey == "" {
        if env.presharedKey.Failure? {
          return Stopped(peer, Some(env.presharedKey.error));
        }
        peer := peer.(presharedKey := env.presharedKey.value);
      } else if peer.presharedKey == "-" {
        peer := peer.(presharedKey := "");
      } else {
        var bad := env.parseKey(peer.presharedKey);
        if bad.Some? {
          return Stopped(peer, bad);
        }
      }
      peer := peer.(createdAt := env.now, updatedAt := env.now);
      return Ready(peer);
    }

    /** `CreateNew` up to the save, on the current database. */
    method PrepareNew(peer: Peer, env: Env) returns (pr: Prepared)
      ensures pr == Prepare(store, peer, env, AsWritten)
    {
      var server := GetServer(store);
      if server.Failure? {
        return Stopped(peer, Some(server.error));
      }
      var ranges := server.value.iface.addresses;
      var inUse, _ := GetAllocatedIPs(store, "");
      assert inUse == InUse(store, "", AsWritten);
      var suggested := SuggestIPs(ranges, inUse, env.availableIP);
      if suggested.Failure? {
        return Stopped(peer, Some(suggested.error));
      }
      var p := peer.(allocatedIPs := suggested.value);
      var verdict := ValidateIPAllocation(ranges, inUse, p.allocatedIPs);
      if verdict.Panic? {
        return Crashed;
      }
      if verdict.Reject? {
        return Stopped(p, Some(verdict.err));
      }
      var allowedOk := ValidateAllowedIPs(p.allowedIPs);
      if !allowedOk {
        return Stopped(p, None);
      }
      var extraOk := ValidateExtraAllowedIPs(p.extraAllowedIPs);
      if !extraOk {
        return Stopped(p, None);
      }
      pr := KeysAndStampNew(p, env);
    }

    /** `applyConfig` on the current database; the database is not changed. */
    method ApplyConfig(write: HubConfig -> Option<Error>) returns (err: Option<Error>)
      ensures err == Apply(store, write)
    {
      var server := GetServer(store);
      if server.Failure? {
        return Some(server.error);
      }
      var peers := GetPeers(store);
      if peers.Failure? {
        return Some(peers.error);
      }
      var settings := GetGlobalSettings(store);
      if settings.Failure? {
        return Some(settings.error);
      }
      err := write(HubConfig(server.value, peers.value, settings.value));
    }

    /** `CreateNew`. */
    method CreateNew(peer: Peer, env: Env) returns (reply: Reply<Peer>)
      requires Valid()
      modifies this
      ensures Valid()
      ensures (store, reply) == Create(old(store), peer, env, AsWritten)
    {
      var pr := PrepareNew(peer, env);
      if pr.Crashed? {
        return Panicked;
      }
      if pr.Stopped? {
        return Reply(pr.peer, pr.err);
      }
      var p := pr.peer;
      var (saved, e) := SavePeer(store, p);
      if e.Some? {
        return Reply(p, e);
      }
      store := saved;
      var applied := ApplyConfig(env.writeConfig);
      if applied.Some? {
        return Reply(EmptyPeer, applied);
      }
      return Reply(p, None);
    }

    /** `EditPeer`. */
    method EditPeer(id: string, value: Peer, now: Time) returns (reply: Reply<PeerData>)
      requires Valid()
      modifies this
      ensures Valid()
      ensures (store, reply) == Edit(old(store), id, value, now, AsWritten)
    {
      var (data, e) := GetPeerByID(store, id);
      if e.Some? {
        return Reply(data, e);
      }
      var server := GetServer(store);
      if server.Failure? {
        return Reply(data, Some(server.error));
      }
      var stored := data.peer.value;
      var inUse, _ := GetAllocatedIPs(store, stored.id);
      assert inUse == InUse(store, stored.id, AsWritten);
      var verdict := ValidateIPAllocation(server.value.iface.addresses, inUse, stored.allocatedIPs);
      if verdict.Panic? {
        return Panicked;
      }
      if verdict.Reject? {
        return Reply(data, Some(verdict.err));
      }
      var allowedOk := ValidateAllowedIPs(stored.allowedIPs);
      if !allowedOk {
        return Reply(data, None);
      }
      var (saved, e2) := SavePeer(store, Edited(stored, value, now));
      if e2.Some? {
        return Reply(data, e2);
      }
      store := saved;
      return Reply(data, None);
    }

    /** `DeletePeer`: the store's own result, passed through. */
    method DeletePeer(id: string) returns (err: Option<Error>)
      requires Valid()
      modifies this
      ensures Valid()
      ensures (store, err) == Store.DeletePeer(old(store), id)
    {
      var (after, e) := Store.DeletePeer(store, id);
      store := after;
      return e;
    }
  }
}
