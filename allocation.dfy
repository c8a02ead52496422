/**
 * `internal/util/util.go`, address bookkeeping: the addresses in use
 * (`GetAllocatedIPs`) and the allocation check (`ValidateIPAllocation`).
 */
module Allocation {
  import opened Wrappers
  import opened Net
  import opened Model
  import opened Util
  import Store

  // ---------------------------------------------------------------- addresses in use

  /** `prefix` in front of a successful result; a failure stays as it is. */
  function Prepend(prefix: seq<string>, r: Result<seq<string>, Error>): Result<seq<string>, Error>
  {
    match r
    case Success(v) => Success(prefix + v)
    case Failure(e) => Failure(e)
  }

  /** The addresses of `cidrs`, one per CIDR and in order; the first malformed CIDR is the error. */
  function AddressesOf(cidrs: seq<string>): Result<seq<string>, Error>
    decreases |cidrs|
  {
    if |cidrs| == 0 then Success([])
    else
      match GetIPFromCIDR(cidrs[0])
      case Failure(e) => Failure(e)
      case Success(ip) => Prepend([ip], AddressesOf(cidrs[1..]))
  }

  /**
   * `AddressesOf` succeeds exactly when every CIDR parses, and then holds
   * each CIDR's address at its position; otherwise its error names the
   * first CIDR that does not parse.
   */
  lemma AddressesOfMeaning(cidrs: seq<string>)
    ensures AddressesOf(cidrs).Success? <==> forall i :: 0 <= i < |cidrs| ==> ParseCidr(cidrs[i]).Some?
    ensures AddressesOf(cidrs).Success? ==>
              |AddressesOf(cidrs).value| == |cidrs| &&
              forall i :: 0 <= i < |cidrs| ==> Success(AddressesOf(cidrs).value[i]) == GetIPFromCIDR(cidrs[i])
    ensures AddressesOf(cidrs).Failure? ==>
              exists i :: 0 <= i < |cidrs| && ParseCidr(cidrs[i]).None? && AddressesOf(cidrs).error == CidrParse(cidrs[i]) &&
                          forall k :: 0 <= k < i ==> ParseCidr(cidrs[k]).Some?
  {
    var rs := IPs(cidrs);
    AddressesCollect(cidrs);
    CollectMeaning(rs);
    if AddressesOf(cidrs).Failure? {
      var i :| 0 <= i < |rs| && rs[i] == Failure(AddressesOf(cidrs).error) && forall k :: 0 <= k < i ==> rs[k].Success?;
      assert ParseCidr(cidrs[i]).None? && AddressesOf(cidrs).error == CidrParse(cidrs[i]);
    }
  }

  /** The result of `GetIPFromCIDR` for each CIDR. */
  function IPs(cidrs: seq<string>): (rs: seq<Result<string, Error>>)
    ensures |rs| == |cidrs| && forall i :: 0 <= i < |cidrs| ==> rs[i] == GetIPFromCIDR(cidrs[i])
  {
    seq(|cidrs|, i requires 0 <= i < |cidrs| => GetIPFromCIDR(cidrs[i]))
  }

  /** The successful values in order, or the first failure. */
  function Collect(rs: seq<Result<string, Error>>): Result<seq<string>, Error>
    decreases |rs|
  {
    if |rs| == 0 then Success([])
    else
      match rs[0]
      case Failure(e) => Failure(e)
      case Success(v) => Prepend([v], Collect(rs[1..]))
  }

  lemma {:induction false} AddressesCollect(cidrs: seq<string>)
    ensures AddressesOf(cidrs) == Collect(IPs(cidrs))
    decreases |cidrs|
  {
    if |cidrs| > 0 {
      AddressesCollect(cidrs[1..]);
      assert IPs(cidrs)[1..] == IPs(cidrs[1..]);
    }
  }

  lemma {:induction false} CollectMeaning(rs: seq<Result<string, Error>>)
    ensures Collect(rs).Success? <==> forall i :: 0 <= i < |rs| ==> rs[i].Success?
    ensures Collect(rs).Success? ==> |Collect(rs).value| == |rs| && forall i :: 0 <= i < |rs| ==> Success(Collect(rs).value[i]) == rs[i]
    ensures Collect(rs).Failure? ==>
              exists i :: 0 <= i < |rs| && rs[i] == Failure(Collect(rs).error) && forall k :: 0 <= k < i ==> rs[k].Success?
    decreases |rs|
  {
    if |rs| > 0 {
      var tail := rs[1..];
      CollectMeaning(tail);
      assert forall i :: 1 <= i < |rs| ==> rs[i] == tail[i - 1];
      if rs[0].Success? && Collect(tail).Failure? {
        var j :| 0 <= j < |tail| && tail[j] == Failure(Collect(tail).error) && forall k :: 0 <= k < j ==> tail[k].Success?;
        assert rs[j + 1] == tail[j];
      }
      if rs[0].Success? && Collect(tail).Success? {
        assert Collect(rs).value == [rs[0].value] + Collect(tail).value;
      }
    }
  }

  /** The CIDRs allocated to the listed peers whose id is not `ignore`, in listing order. */
  function PeerCidrs(ps: seq<Peer>, ignore: string): (cs: seq<string>)
    ensures forall c :: c in cs <==> exists q :: q in ps && q.id != ignore && c in q.allocatedIPs
    decreases |ps|
  {
    if |ps| == 0 then []
    else
      var rest := PeerCidrs(ps[1..], ignore);
      assert forall q :: q in ps <==> q == ps[0] || q in ps[1..];
      if ps[0].id != ignore then ps[0].allocatedIPs + rest else rest
  }

  /**
   * The addresses in use as `GetAllocatedIPs` gathers them from a server
   * interface record and a peer listing: server addresses, then peer
   * addresses; the first failing step's error otherwise.
   */
  function AllocatedFrom(iface: Option<ServerInterface>, listing: Result<seq<Peer>, Error>, ignore: string)
    : Result<seq<string>, Error>
  {
    if iface.None? then Failure(NotFound("server", "interfaces"))
    else
      match AddressesOf(iface.value.addresses)
      case Failure(e) => Failure(e)
      case Success(own) =>
        match listing
        case Failure(e) => Failure(e)
        case Success(ps) => Prepend(own, AddressesOf(PeerCidrs(ps, ignore)))
  }

  /**
   * The addresses in use, read from the `clients` collection where the
   * peers are stored. It differs from the reading of `GetAllocatedIPs` only in the
   * collection: when a `peers` collection held the same records, both agree.
   */
  function AllocatedIPs(db: Store.Db, ignore: string): (r: Result<seq<string>, Error>)
    ensures db.listFault.None? && db.peers == Some(db.clients) ==> r == AllocatedIPsAsWritten(db, ignore)
    ensures db.interfaces.Some? && AddressesOf(db.interfaces.value.addresses).Success? && db.listFault.Some? ==>
      r == Failure(db.listFault.value)
  {
    AllocatedFrom(db.interfaces, Store.ReadClients(db), ignore)
  }

  /**
   * The addresses in use as `GetAllocatedIPs` reads them: from a `peers`
   * collection nothing writes. Without that collection the read fails
   * whatever the clients hold.
   */
  function AllocatedIPsAsWritten(db: Store.Db, ignore: string): (r: Result<seq<string>, Error>)
    ensures db.peers.None? ==> r.Failure?
    ensures db.peers.None? && db.interfaces.Some? && AddressesOf(db.interfaces.value.addresses).Success? ==>
      r == Failure(NotFound("peers", ""))
  {
    AllocatedFrom(db.interfaces, Store.ReadPeersCollection(db), ignore)
  }

  /** Proof helper: prepending two lists in turn is prepending their concatenation. */
  lemma PrependAssoc(a: seq<string>, b: seq<string>, r: Result<seq<string>, Error>)
    ensures Prepend(a, Prepend(b, r)) == Prepend(a + b, r)
  {
    if r.Success? { assert a + (b + r.value) == (a + b) + r.value; }
  }

  /** `AddressesOf` over a concatenation: the first part's addresses, then the second's. */
  lemma {:induction false} AddressesOfAppend(a: seq<string>, b: seq<string>)
    ensures AddressesOf(a + b) == match AddressesOf(a) case Failure(e) => Failure(e) case Success(v) => Prepend(v, AddressesOf(b))
    decreases |a|
  {
    if |a| == 0 {
      assert a + b == b;
      if AddressesOf(b).Success? { assert [] + AddressesOf(b).value == AddressesOf(b).value; }
    } else {
      assert (a + b)[0] == a[0] && (a + b)[1..] == a[1..] + b;
      AddressesOfAppend(a[1..], b);
      if GetIPFromCIDR(a[0]).Success? && AddressesOf(a[1..]).Success? {
        PrependAssoc([GetIPFromCIDR(a[0]).value], AddressesOf(a[1..]).value, AddressesOf(b));
      }
    }
  }

  /** The inner loop of `GetAllocatedIPs`: the address of each CIDR, appended in order. */
  method AppendAddresses(acc: seq<string>, cidrs: seq<string>) returns (out: seq<string>, err: Option<Error>)
    ensures err.None? ==> Success(out) == Prepend(acc, AddressesOf(cidrs))
    ensures err.Some? ==> AddressesOf(cidrs) == Failure(err.value)
  {
    out := acc;
    for k := 0 to |cidrs|
      invariant Prepend(acc, AddressesOf(cidrs)) == Prepend(out, AddressesOf(cidrs[k..]))
      invariant AddressesOf(cidrs).Failure? <==> AddressesOf(cidrs[k..]).Failure?
      invariant AddressesOf(cidrs).Failure? ==> AddressesOf(cidrs).error == AddressesOf(cidrs[k..]).error
    {
      assert cidrs[k..][0] == cidrs[k] && cidrs[k..][1..] == cidrs[k + 1..];
      var r := GetIPFromCIDR(cidrs[k]);
      if r.Failure? {
        return out, Some(r.error);
      }
      PrependAssoc(out, [r.value], AddressesOf(cidrs[k + 1..]));
      out := out + [r.value];
    }
    assert cidrs[|cidrs|..] == [];
    assert out + [] == out;
    return out, None;
  }

  /** Unfolding `PeerCidrs` over the listing from position `j`. */
  lemma PeerCidrsStep(ps: seq<Peer>, j: nat, ignore: string)
    requires j < |ps|
    ensures PeerCidrs(ps[j..], ignore) ==
      (if ps[j].id != ignore then ps[j].allocatedIPs else []) + PeerCidrs(ps[j + 1..], ignore)
  {
    assert ps[j..][0] == ps[j] && ps[j..][1..] == ps[j + 1..];
  }

  /**
   * `GetAllocatedIPs`: the server's addresses, then the addresses of every
   * peer in the `peers` collection except `ignorePeerID`, prefixes stripped.
   * On any error the list is empty (Go's nil).
   */
  method GetAllocatedIPs(db: Store.Db, ignorePeerID: string) returns (ips: seq<string>, err: Option<Error>)
    ensures AllocatedIPsAsWritten(db, ignorePeerID).Success? ==> ips == AllocatedIPsAsWritten(db, ignorePeerID).value && err.None?
    ensures AllocatedIPsAsWritten(db, ignorePeerID).Failure? ==>
      ips == [] && err == Some(AllocatedIPsAsWritten(db, ignorePeerID).error)
  {
    if db.interfaces.None? {
      return [], Some(NotFound("server", "interfaces"));
    }
    var inUse, bad := AppendAddresses([], db.interfaces.value.addresses);
    if bad.Some? {
      return [], bad;
    }
    var listing := Store.ReadPeersCollection(db);
    if listing.Failure? {
      return [], Some(listing.error);
    }
    var records := listing.value;
    ghost var target := AllocatedIPsAsWritten(db, ignorePeerID);
    ghost var own := AddressesOf(db.interfaces.value.addresses);
    assert own.Success? && [] + own.value == inUse;
    assert own.value == inUse;
    assert target == AllocatedFrom(db.interfaces, Success(records), ignorePeerID);
    assert target == Prepend(inUse, AddressesOf(PeerCidrs(records, ignorePeerID)));
    assert records[0..] == records;
    for j := 0 to |records|
      invariant Prepend(inUse, AddressesOf(PeerCidrs(records[j..], ignorePeerID))) == target
    {
      var peer := records[j];
      PeerCidrsStep(records, j, ignorePeerID);
      ghost var later := PeerCidrs(records[j + 1..], ignorePeerID);
      if peer.id != ignorePeerID {
        AddressesOfAppend(peer.allocatedIPs, later);
        var more, failed := AppendAddresses(inUse, peer.allocatedIPs);
        if failed.Some? {
          return [], failed;
        }
        if AddressesOf(peer.allocatedIPs).Success? {
          PrependAssoc(inUse, AddressesOf(peer.allocatedIPs).value, AddressesOf(later));
        }
        inUse := more;
      } else {
        assert [] + later == later;
      }
    }
    assert records[|records|..] == [];
    return inUse, None;
  }

  /** Gathered from a readable listing, the addresses in use are exactly those of the server and of the other listed peers. */
  lemma FromMembers(iface: Option<ServerInterface>, ps: seq<Peer>, ignore: string, ip: string)
    requires AllocatedFrom(iface, Success(ps), ignore).Success?
    ensures ip in AllocatedFrom(iface, Success(ps), ignore).value <==>
      (exists c :: c in iface.value.addresses && GetIPFromCIDR(c) == Success(ip)) ||
      (exists q, c :: q in ps && q.id != ignore && c in q.allocatedIPs && GetIPFromCIDR(c) == Success(ip))
  {
    var own := AddressesOf(iface.value.addresses).value;
    var cs := PeerCidrs(ps, ignore);
    var theirs := AddressesOf(cs).value;
    assert AllocatedFrom(iface, Success(ps), ignore).value == own + theirs;
    AddressesMembers(iface.value.addresses, ip);
    AddressesMembers(cs, ip);
    assert ip in own + theirs <==> ip in own || ip in theirs;
  }

  /** Read from `clients`, the addresses in use are exactly those of the server and of the other stored peers. */
  lemma AllocatedMembers(db: Store.Db, ignore: string, ip: string)
    requires AllocatedIPs(db, ignore).Success?
    ensures ip in AllocatedIPs(db, ignore).value <==>
      (exists c :: c in db.interfaces.value.addresses && GetIPFromCIDR(c) == Success(ip)) ||
      (exists q, c :: q in db.clients && q.id != ignore && c in q.allocatedIPs && GetIPFromCIDR(c) == Success(ip))
  {
    FromMembers(db.interfaces, db.clients, ignore, ip);
  }

  /**
   * As `GetAllocatedIPs` reads them, the addresses in use are those of the server
   * and of the other peers of the `peers` collection; the stored clients play
   * no part.
   */
  lemma AsWrittenMembers(db: Store.Db, ignore: string, ip: string)
    requires AllocatedIPsAsWritten(db, ignore).Success?
    ensures db.peers.Some?
    ensures ip in AllocatedIPsAsWritten(db, ignore).value <==>
      (exists c :: c in db.interfaces.value.addresses && GetIPFromCIDR(c) == Success(ip)) ||
      (exists q, c :: q in db.peers.value && q.id != ignore && c in q.allocatedIPs && GetIPFromCIDR(c) == Success(ip))
  {
    FromMembers(db.interfaces, db.peers.value, ignore, ip);
  }

  lemma AddressesMembers(cs: seq<string>, ip: string)
    requires AddressesOf(cs).Success?
    ensures ip in AddressesOf(cs).value <==> exists c :: c in cs && GetIPFromCIDR(c) == Success(ip)
  {
    AddressesOfMeaning(cs);
    var v := AddressesOf(cs).value;
    if ip in v {
      var i :| 0 <= i < |v| && v[i] == ip;
      assert cs[i] in cs && GetIPFromCIDR(cs[i]) == Success(ip);
    }
    if exists c :: c in cs && GetIPFromCIDR(c) == Success(ip) {
      var c :| c in cs && GetIPFromCIDR(c) == Success(ip);
      var i :| 0 <= i < |cs| && cs[i] == c;
      assert v[i] == ip;
    }
  }

  lemma AddressesFailure(cs: seq<string>)
    ensures AddressesOf(cs).Failure? <==> exists c :: c in cs && ParseCidr(c).None?
  {
    AddressesOfMeaning(cs);
    if AddressesOf(cs).Failure? {
      var i :| 0 <= i < |cs| && ParseCidr(cs[i]).None?;
      assert cs[i] in cs;
    }
  }

  /** Gathering fails exactly when a record is missing or unreadable or some CIDR it must read is malformed. */
  lemma AllocatedFailure(db: Store.Db, ignore: string)
    ensures AllocatedIPs(db, ignore).Failure? <==>
      db.interfaces.None? || db.listFault.Some? ||
      (exists c :: c in db.interfaces.value.addresses && ParseCidr(c).None?) ||
      (exists q, c :: q in db.clients && q.id != ignore && c in q.allocatedIPs && ParseCidr(c).None?)
  {
    if db.interfaces.Some? {
      var cs := PeerCidrs(db.clients, ignore);
      AddressesFailure(db.interfaces.value.addresses);
      AddressesFailure(cs);
      assert (exists c :: c in cs && ParseCidr(c).None?) <==>
        (exists q, c :: q in db.clients && q.id != ignore && c in q.allocatedIPs && ParseCidr(c).None?);
    }
  }

  // ---------------------------------------------------------------- the allocation check

  /** The outcome of `ValidateIPAllocation`: (true, nil), (false, err), or a nil-pointer panic. */
  datatype Verdict = Pass | Reject(err: Error) | Panic

  /**
   * The server-network scan for one address: the first network that holds
   * it passes; a malformed server CIDR reached first yields a nil network,
   * whose `Contains` panics. Parsing has no effects, so the CIDRs are parsed
   * up front by `Nets` and scanned by `Scan`.
   */
  function ServerScan(servers: seq<string>, ip: Addr): Verdict
  {
    Scan(Nets(servers), ip)
  }

  /** Each server CIDR as `net.ParseCIDR` reads it. */
  function Nets(servers: seq<string>): (nets: seq<Option<Cidr>>)
    ensures |nets| == |servers| && forall k :: 0 <= k < |servers| ==> nets[k] == ParseCidr(servers[k])
    ensures WellFormedNets(nets)
  {
    seq(|servers|, k requires 0 <= k < |servers| => ParseCidr(servers[k]))
  }

  /** Every network that parsed has a prefix length within its address's bit length. */
  predicate WellFormedNets(nets: seq<Option<Cidr>>)
  {
    forall k :: 0 <= k < |nets| && nets[k].Some? ==> WellFormed(nets[k].value)
  }

  function Scan(nets: seq<Option<Cidr>>, ip: Addr): Verdict
    requires WellFormedNets(nets)
    decreases |nets|
  {
    if |nets| == 0 then Reject(OutsideServerNetworks(FormatAddr(ip)))
    else
      match nets[0]
      case None => Panic
      case Some(net) => if Contains(net, ip) then Pass else Scan(nets[1..], ip)
  }

  /** One candidate, checked for form, then use, then place. */
  function CandidateVerdict(servers: seq<string>, inUse: seq<string>, cidr: string): Verdict
  {
    match ParseCidr(cidr)
    case None => Reject(InvalidAllocation(cidr))
    case Some(c) =>
      if FormatAddr(c.addr) in inUse then Reject(AlreadyAllocated(FormatAddr(c.addr)))
      else ServerScan(servers, c.addr)
  }

  /** The candidates in order; the first one that does not pass decides. */
  function AllocationVerdict(servers: seq<string>, inUse: seq<string>, candidates: seq<string>): Verdict
  {
    FirstFailing(CandidateVerdicts(servers, inUse, candidates))
  }

  /** The verdict on each candidate on its own. */
  function CandidateVerdicts(servers: seq<string>, inUse: seq<string>, candidates: seq<string>): (vs: seq<Verdict>)
    ensures |vs| == |candidates| && forall i :: 0 <= i < |candidates| ==> vs[i] == CandidateVerdict(servers, inUse, candidates[i])
  {
    seq(|candidates|, i requires 0 <= i < |candidates| => CandidateVerdict(servers, inUse, candidates[i]))
  }

  /** The first verdict that is not `Pass`, or `Pass` when there is none. */
  function FirstFailing(vs: seq<Verdict>): Verdict
    decreases |vs|
  {
    if |vs| == 0 then Pass
    else if vs[0].Pass? then FirstFailing(vs[1..])
    else vs[0]
  }

  /** `ValidateIPAllocation`. */
  method ValidateIPAllocation(serverAddresses: seq<string>, ipAllocatedList: seq<string>, ipAllocationList: seq<string>)
    returns (v: Verdict)
    ensures v == AllocationVerdict(serverAddresses, ipAllocatedList, ipAllocationList)
  {
    ghost var vs := CandidateVerdicts(serverAddresses, ipAllocatedList, ipAllocationList);
    for i := 0 to |ipAllocationList|
      invariant AllocationVerdict(serverAddresses, ipAllocatedList, ipAllocationList) == FirstFailing(vs[i..])
    {
      var peerCidr := ipAllocationList[i];
      assert vs[i..][0] == CandidateVerdict(serverAddresses, ipAllocatedList, peerCidr) && vs[i..][1..] == vs[i + 1..];
      var parsed := ParseCidr(peerCidr);
      if parsed.None? {
        return Reject(InvalidAllocation(peerCidr));
      }
      var ip := parsed.value.addr;
      var text := FormatAddr(ip);
      var used := IsAllocated(ipAllocatedList, text);
      if used {
        return Reject(AlreadyAllocated(text));
      }
      var scan := ScanServers(serverAddresses, ip);
      if !scan.Pass? {
        return scan;
      }
    }
    return Pass;
  }

  /** The inner search of `ValidateIPAllocation` over the addresses in use. */
  method IsAllocated(ipAllocatedList: seq<string>, text: string) returns (used: bool)
    ensures used <==> text in ipAllocatedList
  {
    for j := 0 to |ipAllocatedList|
      invariant text !in ipAllocatedList[..j]
    {
      if ipAllocatedList[j] == text {
        return true;
      }
      assert ipAllocatedList[..j + 1] == ipAllocatedList[..j] + [ipAllocatedList[j]];
    }
    assert ipAllocatedList[..|ipAllocatedList|] == ipAllocatedList;
    return false;
  }

  /** The inner search of `ValidateIPAllocation` over the server networks, with its `isValid` flag. */
  method ScanServers(serverAddresses: seq<string>, ip: Addr) returns (v: Verdict)
    ensures v == ServerScan(serverAddresses, ip)
  {
    ghost var nets := Nets(serverAddresses);
    var isValid := false;
    var k := 0;
    while k < |serverAddresses|
      invariant 0 <= k <= |serverAddresses|
      invariant ServerScan(serverAddresses, ip) == Scan(nets[k..], ip)
    {
      assert nets[k..][0] == ParseCidr(serverAddresses[k]) && nets[k..][1..] == nets[k + 1..];
      var serverNet := ParseCidr(serverAddresses[k]);
      if serverNet.None? {
        return Panic;
      }
      if Contains(serverNet.value, ip) {
        isValid := true;
        break;
      }
      k := k + 1;
    }
    if isValid {
      return Pass;
    }
    return Reject(OutsideServerNetworks(FormatAddr(ip)));
  }

  /**
   * The scan passes exactly when some server network holds the address and
   * every server CIDR before that network parses (`Nets(servers)[k]` is the
   * `k`-th server CIDR parsed).
   */
  lemma ServerScanPass(servers: seq<string>, ip: Addr)
    ensures ServerScan(servers, ip) == Pass <==>
              exists k :: 0 <= k < |servers| && NetHolds(Nets(servers)[k], ip) && forall j :: 0 <= j < k ==> Nets(servers)[j].Some?
  {
    var nets := Nets(servers);
    if Scan(nets, ip) == Pass {
      ScanFinds(nets, ip);
    }
    if exists k :: 0 <= k < |nets| && NetHolds(nets[k], ip) && forall j :: 0 <= j < k ==> nets[j].Some? {
      var k :| 0 <= k < |nets| && NetHolds(nets[k], ip) && forall j :: 0 <= j < k ==> nets[j].Some?;
      ScanReaches(nets, ip, k);
    }
  }

  /** A passing scan stopped at a network holding the address, after networks that all parsed. */
  lemma {:induction false} ScanFinds(nets: seq<Option<Cidr>>, ip: Addr)
    requires WellFormedNets(nets)
    requires Scan(nets, ip) == Pass
    ensures exists k :: 0 <= k < |nets| && NetHolds(nets[k], ip) && forall j :: 0 <= j < k ==> nets[j].Some?
    decreases |nets|
  {
    if !NetHolds(nets[0], ip) {
      var tail := nets[1..];
      ScanFinds(tail, ip);
      var k :| 0 <= k < |tail| && NetHolds(tail[k], ip) && forall j :: 0 <= j < k ==> tail[j].Some?;
      assert nets[k + 1] == tail[k];
      assert forall j :: 1 <= j < k + 1 ==> nets[j] == tail[j - 1];
    } else {
      assert NetHolds(nets[0], ip);
    }
  }

  /** A network holding the address, after networks that all parsed, makes the scan pass. */
  lemma {:induction false} ScanReaches(nets: seq<Option<Cidr>>, ip: Addr, k: nat)
    requires WellFormedNets(nets)
    requires k < |nets| && NetHolds(nets[k], ip) && forall j :: 0 <= j < k ==> nets[j].Some?
    ensures Scan(nets, ip) == Pass
    decreases k
  {
    if k > 0 && !NetHolds(nets[0], ip) {
      var tail := nets[1..];
      assert forall j :: 0 <= j < k - 1 ==> tail[j] == nets[j + 1];
      ScanReaches(tail, ip, k - 1);
    }
  }

  /** The scan panics exactly when a malformed server CIDR comes before any network holding the address. */
  lemma ServerScanPanic(servers: seq<string>, ip: Addr)
    ensures ServerScan(servers, ip) == Panic <==>
              exists k :: 0 <= k < |servers| && Nets(servers)[k].None? && forall j :: 0 <= j < k ==> NetMisses(Nets(servers)[j], ip)
  {
    ScanPanic(Nets(servers), ip);
  }

  lemma {:induction false} ScanPanic(nets: seq<Option<Cidr>>, ip: Addr)
    requires WellFormedNets(nets)
    ensures Scan(nets, ip) == Panic <==>
              exists k :: 0 <= k < |nets| && nets[k].None? && forall j :: 0 <= j < k ==> NetMisses(nets[j], ip)
    decreases |nets|
  {
    if |nets| > 0 {
      var tail := nets[1..];
      ScanPanic(tail, ip);
      assert forall j :: 1 <= j < |nets| ==> nets[j] == tail[j - 1];
      if Scan(nets, ip) == Panic && nets[0].Some? {
        var k :| 0 <= k < |tail| && tail[k].None? && forall j :: 0 <= j < k ==> NetMisses(tail[j], ip);
        assert nets[k + 1].None?;
      }
      if exists k :: 0 <= k < |nets| && nets[k].None? && forall j :: 0 <= j < k ==> NetMisses(nets[j], ip) {
        var k :| 0 <= k < |nets| && nets[k].None? && forall j :: 0 <= j < k ==> NetMisses(nets[j], ip);
        if k > 0 {
          assert tail[k - 1].None?;
        }
      }
    }
  }

  /** The network parsed and holds `ip`. */
  predicate NetHolds(net: Option<Cidr>, ip: Addr)
  {
    net.Some? && WellFormed(net.value) && Contains(net.value, ip)
  }

  /** The network parsed and does not hold `ip`. */
  predicate NetMisses(net: Option<Cidr>, ip: Addr)
  {
    net.Some? && WellFormed(net.value) && !Contains(net.value, ip)
  }

  /** A rejection from the scan always names the address. */
  lemma ServerScanReject(servers: seq<string>, ip: Addr)
    ensures ServerScan(servers, ip).Reject? ==> ServerScan(servers, ip) == Reject(OutsideServerNetworks(FormatAddr(ip)))
  {
    ScanReject(Nets(servers), ip);
  }

  lemma {:induction false} ScanReject(nets: seq<Option<Cidr>>, ip: Addr)
    requires WellFormedNets(nets)
    ensures Scan(nets, ip).Reject? ==> Scan(nets, ip) == Reject(OutsideServerNetworks(FormatAddr(ip)))
    decreases |nets|
  {
    if |nets| > 0 {
      ScanReject(nets[1..], ip);
    }
  }

  /**
   * The whole check passes exactly when every candidate passes; otherwise
   * the verdict is that of the first candidate that does not.
   */
  lemma AllocationFirstFailure(servers: seq<string>, inUse: seq<string>, candidates: seq<string>)
    ensures AllocationVerdict(servers, inUse, candidates) == Pass <==>
              forall i :: 0 <= i < |candidates| ==> CandidateVerdict(servers, inUse, candidates[i]) == Pass
    ensures AllocationVerdict(servers, inUse, candidates) != Pass ==>
              exists i :: 0 <= i < |candidates| && AllocationVerdict(servers, inUse, candidates) == CandidateVerdict(servers, inUse, candidates[i]) &&
                          forall k :: 0 <= k < i ==> CandidateVerdict(servers, inUse, candidates[k]) == Pass
  {
    var vs := CandidateVerdicts(servers, inUse, candidates);
    FirstFailingMeaning(vs);
    if FirstFailing(vs) != Pass {
      var i :| 0 <= i < |vs| && FirstFailing(vs) == vs[i] && forall k :: 0 <= k < i ==> vs[k] == Pass;
      assert AllocationVerdict(servers, inUse, candidates) == CandidateVerdict(servers, inUse, candidates[i]);
    }
  }

  lemma {:induction false} FirstFailingMeaning(vs: seq<Verdict>)
    ensures FirstFailing(vs) == Pass <==> forall i :: 0 <= i < |vs| ==> vs[i] == Pass
    ensures FirstFailing(vs) != Pass ==> exists i :: 0 <= i < |vs| && FirstFailing(vs) == vs[i] && forall k :: 0 <= k < i ==> vs[k] == Pass
    decreases |vs|
  {
    if |vs| > 0 {
      var tail := vs[1..];
      FirstFailingMeaning(tail);
      assert forall j :: 1 <= j < |vs| ==> vs[j] == tail[j - 1];
      if FirstFailing(vs) != Pass && vs[0] == Pass {
        var i :| 0 <= i < |tail| && FirstFailing(tail) == tail[i] && forall k :: 0 <= k < i ==> tail[k] == Pass;
        assert FirstFailing(vs) == vs[i + 1];
      }
    }
  }

  /** What makes a single candidate acceptable when every server CIDR parses. */
  predicate Acceptable(servers: seq<string>, inUse: seq<string>, cidr: string)
  {
    ParseCidr(cidr).Some? && FormatAddr(ParseCidr(cidr).value.addr) !in inUse &&
    exists k :: 0 <= k < |servers| && NetHolds(ParseCidr(servers[k]), ParseCidr(cidr).value.addr)
  }

  /**
   * With well-formed server CIDRs the check never panics, and it passes
   * exactly when every candidate is a CIDR whose address is not in use and
   * lies in some server network. An empty candidate list passes.
   */
  lemma AllocationPassIff(servers: seq<string>, inUse: seq<string>, candidates: seq<string>)
    requires forall k :: 0 <= k < |servers| ==> ParseCidr(servers[k]).Some?
    ensures AllocationVerdict(servers, inUse, candidates) != Panic
    ensures AllocationVerdict(servers, inUse, candidates) == Pass <==>
              forall i :: 0 <= i < |candidates| ==> Acceptable(servers, inUse, candidates[i])
  {
    AllocationFirstFailure(servers, inUse, candidates);
    forall c | ParseCidr(c).Some? && FormatAddr(ParseCidr(c).value.addr) !in inUse
      ensures CandidateVerdict(servers, inUse, c) != Panic
      ensures CandidateVerdict(servers, inUse, c) == Pass <==> Acceptable(servers, inUse, c)
    {
      ServerScanPass(servers, ParseCidr(c).value.addr);
      ServerScanPanic(servers, ParseCidr(c).value.addr);
    }
    if AllocationVerdict(servers, inUse, candidates) != Pass {
      var i :| 0 <= i < |candidates| && AllocationVerdict(servers, inUse, candidates) == CandidateVerdict(servers, inUse, candidates[i]);
      assert CandidateVerdict(servers, inUse, candidates[i]) != Panic;
    }
  }

  // ---------------------------------------------------------------- network and broadcast addresses

  /** The lowest address of the IPv4 network `x/n`. */
  function NetworkV4(x: U32, n: nat): U32
    requires n <= 32
  {
    ModBelow(x, Pow2(32 - n));
    x - x % Pow2(32 - n)
  }

  /** The highest address of the IPv4 network `x/n`. */
  function BroadcastV4(x: U32, n: nat): U32
    requires n <= 32
  {
    BroadcastBound(x, n);
    x - x % Pow2(32 - n) + (Pow2(32 - n) - 1)
  }

  lemma DivUnique(a: nat, p: nat, q: nat, r: nat)
    requires p > 0 && r < p && a == q * p + r
    ensures a / p == q && a % p == r
  {
    var d, m := a / p, a % p;
    assert a == d * p + m;
    assert (q - d) * p == m - r;
    if q > d {
      MulNonneg(q - d - 1, p);
    } else if q < d {
      MulNonneg(d - q - 1, p);
    }
  }

  lemma ModBelow(x: nat, p: nat)
    requires p > 0
    ensures x % p <= x && x / p * p == x - x % p
  {
    MulNonneg(x / p, p);
  }

  /** The last address of the block of `x` stays below a multiple of the block size that bounds `x`. */
  lemma BlockEndBelow(x: nat, p: nat, bound: nat)
    requires p > 0 && x < bound * p
    ensures x - x % p + (p - 1) < bound * p
  {
    var q := x / p;
    ModBelow(x, p);
    if q >= bound {
      MulNonneg(q - bound, p);
    }
    MulNonneg(bound - q - 1, p);
    assert (bound - q - 1) * p == bound * p - q * p - p;
  }

  lemma BroadcastBound(x: U32, n: nat)
    requires n <= 32
    ensures x - x % Pow2(32 - n) + (Pow2(32 - n) - 1) < TWO32
  {
    Pow2Add(n, 32 - n);
    Pow2Values();
    BlockEndBelow(x, Pow2(32 - n), Pow2(n));
  }

  /** The network and broadcast addresses share the network's prefix. */
  lemma NetworkBroadcastPrefix(x: U32, n: nat)
    requires n <= 32
    ensures Prefix(NetworkV4(x, n), 32, n) == Prefix(x, 32, n)
    ensures Prefix(BroadcastV4(x, n), 32, n) == Prefix(x, 32, n)
  {
    var p := Pow2(32 - n);
    var q := x / p;
    ModBelow(x, p);
    assert NetworkV4(x, n) == q * p;
    DivUnique(q * p, p, q, 0);
    DivUnique(q * p + (p - 1), p, q, p - 1);
  }

  /** An IPv4 server network holds exactly the IPv4 addresses that share its prefix. */
  lemma ContainsV4(x: U32, n: nat, y: U32)
    requires n <= 32
    ensures Contains(Cidr(V4(x), n), V4(y)) <==> Prefix(y, 32, n) == Prefix(x, 32, n)
  {
    DivUnique(0xffff * TWO32 + y, TWO32, 0xffff, y);
  }

  /** A free IPv4 address that shares the server network's prefix passes, whatever prefix length it carries. */
  lemma InsideV4Accepted(x: U32, n: nat, y: U32, m: nat, inUse: seq<string>)
    requires n <= 32 && m <= 32 && Prefix(y, 32, n) == Prefix(x, 32, n) && FormatV4(y) !in inUse
    ensures CandidateVerdict([FormatCidr(Cidr(V4(x), n))], inUse, FormatCidr(Cidr(V4(y), m))) == Pass
  {
    var servers := [FormatCidr(Cidr(V4(x), n))];
    ParseCidrFormatV4(x, n);
    ParseCidrFormatV4(y, m);
    ContainsV4(x, n, y);
    var nets := Nets(servers);
    assert nets == [Some(Cidr(V4(x), n))];
    assert Scan(nets, V4(y)) == Pass;
  }

  /**
   * The check accepts the network address and the broadcast address of the
   * server's IPv4 network like any other address of it.
   */
  lemma NetworkAndBroadcastAccepted(x: U32, n: nat, m: nat, inUse: seq<string>)
    requires n <= 32 && m <= 32
    requires FormatV4(NetworkV4(x, n)) !in inUse && FormatV4(BroadcastV4(x, n)) !in inUse
    ensures AllocationVerdict([FormatCidr(Cidr(V4(x), n))], inUse,
              [FormatCidr(Cidr(V4(NetworkV4(x, n)), m)), FormatCidr(Cidr(V4(BroadcastV4(x, n)), m))]) == Pass
  {
    var lo, hi := NetworkV4(x, n), BroadcastV4(x, n);
    var servers := [FormatCidr(Cidr(V4(x), n))];
    var candidates := [FormatCidr(Cidr(V4(lo), m)), FormatCidr(Cidr(V4(hi), m))];
    NetworkBroadcastPrefix(x, n);
    InsideV4Accepted(x, n, lo, m, inUse);
    InsideV4Accepted(x, n, hi, m, inUse);
    AllocationFirstFailure(servers, inUse, candidates);
  }

  // ---------------------------------------------------------------- the collection the addresses are read from

  /**
   * The addresses in use for a server with one CIDR `s` and one stored
   * client holding one CIDR `c`: read from `clients` they are both
   * addresses; read from the missing `peers` collection they are an error.
   */
  lemma OneClientInUse(db: Store.Db, s: string, c: string, ipS: string, ipC: string)
    requires db.interfaces.Some? && db.interfaces.value.addresses == [s]
    requires db.peers.None? && db.listFault.None?
    requires |db.clients| == 1 && db.clients[0].id != "" && db.clients[0].allocatedIPs == [c]
    requires GetIPFromCIDR(s) == Success(ipS) && GetIPFromCIDR(c) == Success(ipC)
    ensures AllocatedIPsAsWritten(db, "") == Failure(NotFound("peers", ""))
    ensures AllocatedIPs(db, "") == Success([ipS, ipC])
  {
    AddressesOne(s, ipS);
    AddressesOne(c, ipC);
    PeerCidrsOne(db.clients, "");
    assert [ipS] + [ipC] == [ipS, ipC];
    assert AllocatedFrom(db.interfaces, Store.ReadClients(db), "") == Prepend([ipS], Success([ipC]));
  }

  lemma AddressesOne(c: string, ip: string)
    requires GetIPFromCIDR(c) == Success(ip)
    ensures AddressesOf([c]) == Success([ip])
  {
    AddressesCollect([c]);
    assert IPs([c]) == [Success(ip)];
    CollectOne(ip);
  }

  lemma CollectOne(ip: string)
    ensures Collect([Success(ip)]) == Success([ip])
  {
    var rs: seq<Result<string, Error>> := [Success(ip)];
    assert rs[1..] == [];
    assert Collect(rs) == Prepend([ip], Collect([]));
    assert [ip] + [] == [ip];
  }

  lemma PeerCidrsOne(ps: seq<Peer>, ignore: string)
    requires |ps| == 1 && ps[0].id != ignore
    ensures PeerCidrs(ps, ignore) == ps[0].allocatedIPs
  {
    assert ps[1..] == [];
  }

  /** A single candidate whose address is already in use is rejected as allocated. */
  lemma OneCandidateTaken(servers: seq<string>, inUse: seq<string>, c: string, ip: Addr)
    requires ParseCidr(c).Some? && ParseCidr(c).value.addr == ip && FormatAddr(ip) in inUse
    ensures AllocationVerdict(servers, inUse, [c]) == Reject(AlreadyAllocated(FormatAddr(ip)))
  {
    var vs := CandidateVerdicts(servers, inUse, [c]);
    assert vs[0] == Reject(AlreadyAllocated(FormatAddr(ip)));
  }

  /** A single candidate decides the check on its own. */
  lemma OneCandidate(servers: seq<string>, inUse: seq<string>, c: string)
    ensures AllocationVerdict(servers, inUse, [c]) == CandidateVerdict(servers, inUse, c)
  {
    var vs := CandidateVerdicts(servers, inUse, [c]);
    assert vs == [vs[0]];
    FirstFailingOne(vs[0]);
  }

  lemma FirstFailingOne(v: Verdict)
    ensures FirstFailing([v]) == v
  {
    assert [v][1..] == [];
  }

  /**
   * Reading the peers from the `peers` collection, as `GetAllocatedIPs` does, loses
   * every stored client: with the server at `x/n` and one stored client
   * holding `y/m` inside that network, the collection read fails, the list
   * of addresses in use is empty, and the client's address passes the
   * allocation check a second time. Read from `clients`, where the peers are
   * stored, the same address is rejected as already allocated.
   */
  lemma PeersCollectionMissesClients(db: Store.Db, x: U32, n: nat, y: U32, m: nat)
    requires n <= 32 && m <= 32 && Prefix(y, 32, n) == Prefix(x, 32, n)
    requires db.interfaces.Some? && db.interfaces.value.addresses == [FormatCidr(Cidr(V4(x), n))]
    requires db.peers.None? && db.listFault.None?
    requires |db.clients| == 1 && db.clients[0].id != "" && db.clients[0].allocatedIPs == [FormatCidr(Cidr(V4(y), m))]
    ensures AllocatedIPsAsWritten(db, "") == Failure(NotFound("peers", ""))
    ensures AllocationVerdict(db.interfaces.value.addresses, [], db.clients[0].allocatedIPs) == Pass
    ensures AllocatedIPs(db, "") == Success([FormatV4(x), FormatV4(y)])
    ensures AllocationVerdict(db.interfaces.value.addresses, [FormatV4(x), FormatV4(y)], db.clients[0].allocatedIPs)
              == Reject(AlreadyAllocated(FormatV4(y)))
  {
    var s, c := FormatCidr(Cidr(V4(x), n)), FormatCidr(Cidr(V4(y), m));
    GetIPFromCIDRV4(x, n);
    GetIPFromCIDRV4(y, m);
    ParseCidrFormatV4(y, m);
    OneClientInUse(db, s, c, FormatV4(x), FormatV4(y));
    InsideV4Accepted(x, n, y, m, []);
    OneCandidate([s], [], c);
    OneCandidateTaken([s], [FormatV4(x), FormatV4(y)], c, V4(y));
  }
}
