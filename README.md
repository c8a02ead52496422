# vpn-wg core in Dafny

vpn-wg is a WireGuard management service. This project models its two
core pieces.

The first piece is the address bookkeeping of `internal/util/util.go`:
- gathering the addresses in use (`GetAllocatedIPs`);
- stripping a CIDR to its address (`GetIPFromCIDR`);
- the three-step allocation check (`ValidateIPAllocation`);
- the CIDR list checks in strict and allow-empty mode;
- the client configuration renderer `BuildPeerConfig`.

The second piece is the peer lifecycle service of
`internal/service/WireguardService.go`: `CreateNew`, `EditPeer`,
`DeletePeer` and `applyConfig`, over the JSON file database of
`internal/store/jsondb/jsondb.go`.

Modules, one per file:

| file | module | what it holds |
|---|---|---|
| `wrappers.dfy` | `Wrappers` | `Option` and `Result` |
| `text.dfy` | `Text` | `strings.Split` and `strings.Join`, decimal printing, `strconv.Atoi` with its 64-bit range |
| `net.dfy` | `Net` | `net.ParseCIDR`, `IP.String` and `IPNet.Contains` on addresses held as numbers below 2^32 or 2^128, with prefixes as in section 3.1 of RFC 4632 |
| `model.dfy` | `Model` | the records of `internal/model`; times are opaque integers |
| `store.dfy` | `Store` | the scribble database as a value |
| `util.dfy` | `Util` | `GetIPFromCIDR`, `ValidateCIDR`, the list checks |
| `allocation.dfy` | `Allocation` | `GetAllocatedIPs`, `ValidateIPAllocation` |
| `configtext.dfy` | `ConfigText` | a reader for line-based `Key = value` text, used to state what the rendered configuration says |
| `peerconfig.dfy` | `PeerConfig` | `BuildPeerConfig` |
| `service.dfy` | `Service` | the `WireguardService` class, with specification functions and lemmas beside it |

About the store:
- It is kept as a value of type `Store.Db`.
- The `interfaces`, `keypair` and `global_settings` records are each optional.
- The `clients` collection is a sequence in file-name order: scribble lists `<id>.json` files by name. `Store.Records` views it as a map from id to peer.
- A `peers` collection is optional.
- Faults of listing and writing are part of the state.

About the service:
- `WireguardService` holds the store in a field. Its methods replace that field.
- Each method is proved equal to a specification function of the old store: `Prepare`, `Create`, `Edit`, `Apply`, `Store.DeletePeer`.
- The lemmas about those functions state what the service promises.
- The specification functions take a `Service.Reading`. With `AsWritten` the addresses in use come from the `peers` collection, as `GetAllocatedIPs` reads them. With `Corrected` they come from `clients`, where the peers are stored.
- The class methods are proved against `AsWritten`: they model the program as it is. `Corrected` is the variant that the finding below calls for. Lemmas that do not name a reading hold for both.

Everything outside the model comes in as a parameter `Service.Env`:
- the UUID;
- the clock;
- `wgtypes` key generation and `wgtypes.ParseKey`;
- `GetAvailableIP`;
- the configuration writer `writeWireGuardServerConfig`.

A nil-pointer panic inside `ValidateIPAllocation` is an outcome of its own: `Verdict.Panic` and `Reply.Panicked`. It happens when a server CIDR does not parse.

The model follows the code where its behaviour may be unexpected:
- **Network and broadcast addresses.** The allocation check accepts the network address and the broadcast address of a server network. The code has no test for them (`Allocation.NetworkAndBroadcastAccepted`).
- **`PrivateKey`.** `BuildPeerConfig` always writes a `PrivateKey` line, even an empty one.
- **`AllowedIPs`.** The `AllowedIPs` line joins only `AllowedIPs`, never `ExtraAllowedIPs`.
- **Endpoints.** The endpoint host is the text before the first `:`, so a bare IPv6 literal is cut at its first colon.
- **Nil errors.** Several rejections in `CreateNew` and `EditPeer` return a nil error (`Service.CreateNilErrors`, `Service.EditStops`).
- **`EditPeer` validation.** `EditPeer` validates the stored record, not the request.

## Model

| member | source | states |
|---|---|---|
| `Util.GetIPFromCIDR` | internal/util/util.go:111-117 | succeeds exactly when the text parses as a CIDR, with the printed address the CIDR carries; otherwise the parse error |
| `Util.GetIPFromCIDRV4` | internal/util/util.go:111-117 | for an IPv4 CIDR the address comes back as written, not masked to its network |
| `Util.ValidateCIDR` | internal/util/util.go:158-164 | true exactly when `GetIPFromCIDR` succeeds |
| `Util.ValidateCIDRList` | internal/util/util.go:167-182 | true exactly when every entry parses, skipping empty entries in allow-empty mode; an empty list passes |
| `Util.ValidateAllowedIPs` | internal/util/util.go:185-190 | true exactly when every entry parses |
| `Util.ValidateExtraAllowedIPs` | internal/util/util.go:193-198 | true exactly when every non-empty entry parses |
| `Net.ParseCidrFormatV4` | internal/util/util.go:112-116 | every IPv4 CIDR printed as text parses back to itself |
| `Net.FormatV4Injective` | internal/util/util.go:129-133 | distinct IPv4 addresses print differently, so the in-use test on printed addresses compares addresses |
| `Allocation.ContainsV4` | internal/util/util.go:139-140 | an IPv4 network holds an IPv4 address exactly when the address shares its first `prefixLen` bits |
| `Allocation.AddressesOfMeaning` | internal/util/util.go:78-84 | the addresses of a CIDR list, one per CIDR in order, exactly when all parse; otherwise the first malformed CIDR's error |
| `Allocation.AppendAddresses` | internal/util/util.go:78-84 | the append loop extends the list by the addresses of the CIDRs, or reports the first parse error |
| `Allocation.PeerCidrs` | internal/util/util.go:91-106 | the CIDRs of exactly the stored peers whose id is not the ignored one |
| `Allocation.AddressesOfAppend` | internal/util/util.go:97-104 | gathering over two lists is gathering over the first, then over the second |
| `Allocation.GetAllocatedIPs` | internal/util/util.go:64-109 | computes `AllocatedIPsAsWritten`: the server's addresses, then those of the other peers in the `peers` collection, prefixes stripped; an empty list and the error on the first failure |
| `Allocation.AllocatedIPsAsWritten` | internal/util/util.go:64-109 | the read of the `peers` collection in the Go code: with no such collection it fails, whatever the stored clients hold |
| `Allocation.AsWrittenMembers` | internal/util/util.go:64-109 | as `GetAllocatedIPs` reads them, an address is in use exactly when a server CIDR or a CIDR of another peer in the `peers` collection has it; the stored clients play no part |
| `Allocation.AllocatedIPs` | internal/util/util.go:64-109 | the corrected read of `clients`: it agrees with the as-written read whenever a `peers` collection would hold the same records, and fails with a listing fault |
| `Allocation.AllocatedMembers` | internal/util/util.go:64-109 | read from `clients`, an address is in use exactly when a server CIDR or a CIDR of another stored peer has it |
| `Allocation.AllocatedFailure` | internal/util/util.go:74-102 | read from `clients`, gathering fails exactly when the interface record is missing, the listing fails, or a CIDR to be read is malformed |
| `Allocation.ValidateIPAllocation` | internal/util/util.go:119-155 | the loop returns the verdict of the first candidate that does not pass, or pass |
| `Allocation.IsAllocated` | internal/util/util.go:129-133 | true exactly when the printed address is in the list |
| `Allocation.ScanServers` | internal/util/util.go:137-151 | the `isValid` scan over the server networks returns the scan verdict |
| `Allocation.ServerScanPass` | internal/util/util.go:138-144 | the scan passes exactly when some server network holds the address and every server CIDR before it parses |
| `Allocation.ServerScanPanic` | internal/util/util.go:139-140 | the scan panics exactly when a malformed server CIDR comes before any network holding the address |
| `Allocation.ServerScanReject` | internal/util/util.go:147-151 | a rejection from the scan names the address |
| `Allocation.AllocationFirstFailure` | internal/util/util.go:120-151 | the check passes exactly when every candidate passes; otherwise the first failing candidate decides |
| `Allocation.AllocationPassIff` | internal/util/util.go:119-155 | with parsable server CIDRs there is no panic, and the check passes exactly when every candidate parses, is unused and lies in a server network; an empty list passes |
| `Allocation.InsideV4Accepted` | internal/util/util.go:120-151 | a free IPv4 address that shares the server network's prefix passes, whatever its own prefix length |
| `Allocation.NetworkAndBroadcastAccepted` | internal/util/util.go:119-155 | the network and broadcast addresses of the server network pass like any other address |
| `Allocation.PeersCollectionMissesClients` | internal/util/util.go:86-89 | reading `peers` loses the stored clients so a duplicate passes; reading `clients` rejects it |
| `Store.GetServer` | internal/store/jsondb/jsondb.go:104-118 | succeeds exactly when both the interface and key pair records exist, with both |
| `Store.GetGlobalSettings` | internal/store/jsondb/jsondb.go:120-123 | the settings record when it exists; otherwise a not-found error for `server/global_settings` |
| `Store.GetPeers` | internal/store/jsondb/jsondb.go:125-159 | succeeds exactly when the listing does, with every client wrapped in order |
| `Store.SavePeer` | internal/store/jsondb/jsondb.go:161-163 | on success the record with the peer's id is the peer and nothing else changes; on a write fault nothing changes |
| `Store.GetPeerByID` | internal/store/jsondb/jsondb.go:165-197 | the stored record when the id exists; otherwise a not-found error and no peer |
| `Store.DeletePeer` | internal/store/jsondb/jsondb.go:199-202 | an unknown id is an error; otherwise exactly that record goes, unless the write fails |
| `Store.DeleteTwice` | internal/store/jsondb/jsondb.go:199-202 | a second delete of the same id fails and changes nothing |
| `Store.SaveThenGet` | internal/store/jsondb/jsondb.go:161-172 | a saved record reads back unchanged |
| `Store.UpsertListed` | internal/store/jsondb/jsondb.go:161-163 | writing keeps the collection in file-name order |
| `Store.RemoveListed` | internal/store/jsondb/jsondb.go:199-202 | deleting keeps the collection in file-name order |
| `Store.RecordsKeyed` | internal/store/jsondb/jsondb.go:161-169 | a record is filed under its own id |
| `PeerConfig.SplitEndpointMeaning` | internal/util/util.go:222-232 | without ':' the whole address and the listen port; otherwise the text before the first ':' and the second field as a port when it is an integer, else the listen port |
| `PeerConfig.SplitEndpointRoundTrip` | internal/util/util.go:222-233 | `host:port` with a colon-free host and a 64-bit port splits back into the same host and port |
| `PeerConfig.BuildPeerConfig` | internal/util/util.go:200-259 | the text is the rendering of the fixed sequence of headers and settings, which the lemmas below read back |
| `PeerConfig.PeerConfigLookup` | internal/util/util.go:200-259 | reading a setting back from the text gives the value the renderer assigns it, or nothing for a line left out |
| `PeerConfig.PeerConfigFixedLines` | internal/util/util.go:202-233 | `Address`, `PrivateKey` (also when empty), the server's `PublicKey`, `AllowedIPs` from the allowed IPs only, and `Endpoint` always appear |
| `PeerConfig.PeerConfigOptionalLines` | internal/util/util.go:204-243 | `DNS` iff the peer uses the server DNS, `MTU` iff positive, `FwMark` iff set, `PresharedKey` iff non-empty, `PersistentKeepalive` iff positive |
| `PeerConfig.PeerConfigIgnoresExtra` | internal/util/util.go:220 | the extra allowed IPs do not affect the text |
| `PeerConfig.PeerConfigOneLine` | internal/util/util.go:202-243 | every header and setting occupies exactly one line when no value holds a newline |
| `PeerConfig.PeerConfigLines` | internal/util/util.go:245-257 | when no value holds a newline, the text's lines are the entries' lines, then the empty remainder after the last newline |
| `PeerConfig.PeerConfigOrder` | internal/util/util.go:245-257 | `[Interface]` first, then the interface settings, a blank line, `[Peer]` and the peer settings, in the fixed order |
| `Service.SuggestIPs` | internal/service/WireguardService.go:44-57 | the suggestion loop computes `Suggest` |
| `Service.SuggestMeaning` | internal/service/WireguardService.go:46-57 | one host CIDR per server range, in range order, from that range's available address; otherwise the first failing range's error |
| `Service.HostCidrV4` | internal/service/WireguardService.go:52-56 | a suggested IPv4 address becomes the `/32` CIDR of exactly that address, and the allocation check reads that address back from it |
| `Service.InUse` | internal/service/WireguardService.go:43 | the error of `GetAllocatedIPs` is dropped: as written, with no `peers` collection, no address counts as in use; with the corrected read, the addresses read from `clients` |
| `Service.FindKey` | internal/service/WireguardService.go:99-104 | true exactly when some stored peer has the public key |
| `Service.KeyStageReady` | internal/service/WireguardService.go:78-105 | the key step changes only the key pair: a generated pair for an empty key; otherwise the key parses and no stored peer has it |
| `Service.PresharedReady` | internal/service/WireguardService.go:107-123 | the preshared step changes only the preshared key: generated for "", cleared for "-", kept if it parses |
| `Service.PrepareUnfold` | internal/service/WireguardService.go:37-125 | a peer ready to save passed the server read, the suggestions, the allocation and both CIDR checks, then the key steps and the stamp |
| `Service.PrepareReady` | internal/service/WireguardService.go:43-125 | the saved peer has the suggested addresses, passed every check, has the new id and `CreatedAt == UpdatedAt == now`, and keeps all other request fields |
| `Service.PrepareKeys` | internal/service/WireguardService.go:78-105 | empty public key: both keys from one generated pair; otherwise both keys as supplied, the key parses and differs from every stored peer's key |
| `Service.PreparePreshared` | internal/service/WireguardService.go:107-123 | "" stores a generated key, "-" stores "", anything else must parse and is stored unchanged |
| `Service.CreateStops` | internal/service/WireguardService.go:37-123 | any stop before the save leaves the store unchanged and returns the stop's peer and error, or the panic |
| `Service.CreateSaves` | internal/service/WireguardService.go:124-135 | the save happens once under the new id and nothing else changes; a failing `applyConfig` keeps the save and returns the zero peer with its error |
| `Service.CreateNilErrors` | internal/service/WireguardService.go:60-104 | bad allowed IPs, bad extra allowed IPs and a duplicate public key each return a nil error and save nothing |
| `Service.PrepareOneRange` | internal/service/WireguardService.go:43-59 | with one server range, the candidate checked is the host CIDR of the address `GetAvailableIP` suggests, checked against that reading's in-use list |
| `Service.CreateReusesClientAddress` | internal/service/WireguardService.go:43-72 | as written, with one server network and one client inside it, `GetAvailableIP` gets an empty in-use list; a suggestion of the client's address passes the allocation check, and a peer that passes the later checks is prepared with the client's own address |
| `Service.CreateRefusesClientAddress` | internal/service/WireguardService.go:43-72 | with the corrected read, the same suggestion is refused as already allocated and the store is unchanged |
| `Service.CreateIgnoresRequestedAddresses` | internal/service/WireguardService.go:46-59 | the caller's allocated IPs have no effect on the store |
| `Service.EditUnknown` | internal/service/WireguardService.go:139-143 | an unknown id returns not-found with no peer and saves nothing |
| `Service.EditOutcome` | internal/service/WireguardService.go:138-176 | checks depend only on the stored record; on success exactly the seven request fields are saved over it; the reply is always the pre-edit record |
| `Service.EditStops` | internal/service/WireguardService.go:144-159 | before the save the store is unchanged and the reply carries the stored record: a failing server read with its error, a rejected allocation with the check's error, the panic, and stored allowed IPs that do not parse with a nil error |
| `Service.EditAsWrittenIgnoresOthers` | internal/service/WireguardService.go:151-156 | as written, with no `peers` collection and every server CIDR parsing, the edited record's allocation passes exactly when each address parses and lies in a server network, whoever else holds it |
| `Service.EditOwnAllocationPasses` | internal/service/WireguardService.go:151-156 | with the corrected read, the edited record's own addresses are not counted as in use, so an allocation nobody else shares and that lies in the server networks passes again |
| `Service.ApplyWrites` | internal/service/WireguardService.go:187-208 | with all three reads succeeding, the writer gets the server, every client and the settings, and its error is the result |
| `Service.ApplyStopsEarly` | internal/service/WireguardService.go:187-202 | a failing read returns before the writer is called, with the first failing read's error in the order server, peers, settings |
| `Service.WireguardService.constructor` | internal/service/WireguardService.go:28-32 | the service holds the store it is given |
| `Service.WireguardService.KeysAndStampNew` | internal/service/WireguardService.go:74-125 | the id, key and timestamp steps compute `KeysAndStamp` on the current store |
| `Service.WireguardService.PrepareNew` | internal/service/WireguardService.go:35-125 | everything before the save computes `Prepare` on the current store, reading the addresses in use from `peers` as the Go code does |
| `Service.WireguardService.ApplyConfig` | internal/service/WireguardService.go:187-208 | computes `Apply` on the current store and changes nothing |
| `Service.WireguardService.CreateNew` | internal/service/WireguardService.go:35-136 | the new store and the reply are those of `Create` on the old store, with the `peers` read of the Go code |
| `Service.WireguardService.EditPeer` | internal/service/WireguardService.go:138-176 | the new store and the reply are those of `Edit` on the old store, with the `peers` read of the Go code |
| `Service.WireguardService.DeletePeer` | internal/service/WireguardService.go:178-185 | the store's delete result, store and error both, passed through unchanged |

## Left out

- I/O is not modelled, and neither is scribble's on-disk format:
  - the JSON encoding and decoding;
  - `scribble.New("./db")`;
  - `JsonDB.Init`;
  - the QR code images of `GetPeers` and `GetPeerByID`.

  A record that fails to decode is part of `listFault`. `GetAllocatedIPs` opens its own connection to `./db`; the model gives it the same database the service uses.
- `GetAvailableIP` is defined outside the modelled files. It is the parameter `Env.availableIP`, and nothing is assumed of it beyond returning an address or an error.
- `wgtypes` key generation and parsing, `uuid.NewV4` and `time.Now` are parameters of `Env`. The model does not relate `PublicKey()` to the private key.
- `writeWireGuardServerConfig` reads a template file and writes the server configuration file, which is I/O. It is the fallible sink `Env.writeConfig`.
- Neither `EditPeer` nor `DeletePeer` calls `applyConfig`. The model shows this by the fact that their methods are not given a writer.
- These parts of `internal/util/util.go` are left out, because they are OS environment and network lookups:
  - the `LookupEnvOr*` family;
  - `GetPublicIP`.
- Logging through `logrus` and `fmt` is left out: it has no effect on results.
- Concurrency is not modelled. Each service call is one atomic step on the store. The Go code holds no lock between reading the addresses in use, reading the stored keys and saving in `CreateNew`, so two concurrent creates can take the same address or key. That interleaving is not captured.
- `Env.newID` is any string, including "". `uuid.NewV4` never yields "", and scribble's `Write` would refuse an empty resource name; the model saves under whatever id it is given.
- `net.ParseCIDR` is modelled for plain IPv4 and IPv6 text.
  - It has no zones, and leading zeros in IPv4 fields are refused.
  - The text round trip (`Net.ParseCidrFormatV4`) is proved for IPv4 only. IPv6 printing is modelled, but not proved to parse back.
- `Service.HostCidrV4` covers IPv4 suggestions only. The matching `/128` fact for IPv6 needs the IPv6 text round trip, which is not proved.
- `PeerConfig.PeerConfigLookup`, `PeerConfig.PeerConfigFixedLines`, `PeerConfig.PeerConfigOptionalLines`, `PeerConfig.PeerConfigOneLine` and `PeerConfig.PeerConfigLines` assume that no value holds a newline (`SingleLineValues`). `BuildPeerConfig` does not check for one. `PeerConfig.BuildPeerConfig`'s own contract and `PeerConfig.PeerConfigOrder` hold without that assumption.
- `Service.EditOwnAllocationPasses` is stated for the corrected read and under conditions. As written the in-use list is empty (`Service.EditAsWrittenIgnoresOthers`). The conditions are there because an unchanged allocation need not pass again, in two cases:
  - another record or a server CIDR now shares the address;
  - a server CIDR does not parse (a panic).
- The dereference of `peerData.Peer` at the start of `EditPeer` never sees nil: `GetPeerByID` without an error always sets the peer.
- An empty id given to scribble's `Delete` and `Read` is not modelled beyond an unknown id. The library's handling of a bare collection path is not part of this model.
- The store is a file-name-ordered sequence with a map view (`Store.Records`), not a bare map. The listing order is what `GetPeers` returns.

## Findings

| source | as written | input that shows it | evidently intended | confidence | as-written member | corrected member |
|---|---|---|---|---|---|---|
| internal/util/util.go:86 | `GetAllocatedIPs` lists the `peers` collection, but the store saves peers under `clients` (internal/store/jsondb/jsondb.go:128,162). With no `peers` directory the listing fails, and callers treat that as no address in use. | Server interface 10.0.0.1/24 and one stored client holding 10.0.0.2/32, with no `peers` directory: the as-written read fails and 10.0.0.2/32 passes the allocation check again | read the `clients` collection, so 10.0.0.2 is already allocated | not executed | `Allocation.AllocatedIPsAsWritten`, computed by `Allocation.GetAllocatedIPs` and used by the service methods through `Service.InUse` with the `AsWritten` reading (counterexamples `Allocation.PeersCollectionMissesClients` and `Service.CreateReusesClientAddress`) | `Allocation.AllocatedIPs` with `Allocation.AllocatedMembers`, and the service variant with the `Corrected` reading, where `Service.CreateRefusesClientAddress` refuses the duplicate |
