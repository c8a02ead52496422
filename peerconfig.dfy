/**
 * `internal/util/util.go`, `BuildPeerConfig`: the text of a client's
 * WireGuard configuration.
 */
module PeerConfig {
  import opened Wrappers
  import opened Text
  import opened Model
  import opened ConfigText

  // ---------------------------------------------------------------- the client configuration

  /**
   * The endpoint host and port of `BuildPeerConfig`: with a ':' in the
   * address, the first ':'-field is the host and the second the port when it
   * reads as an integer; otherwise the listen port.
   */
  function SplitEndpoint(address: string, listenPort: int): (string, int)
  {
    if ':' in address then
      var split := Split(address, ':');
      (split[0], match Atoi(split[1]) case Some(n) => n case None => listenPort)
    else (address, listenPort)
  }

  /**
   * The host is the text before the first ':' (all of the address when there
   * is none); the port is the text between the first and second ':' read as
   * an integer, and the listen port when there is no ':' or that text is not
   * an integer.
   */
  lemma SplitEndpointMeaning(address: string, listenPort: int)
    ensures ':' !in address ==> SplitEndpoint(address, listenPort) == (address, listenPort)
    ensures ':' in address ==>
              var i := IndexOf(address, ':');
              var rest := address[i + 1..];
              var field := if ':' in rest then rest[..IndexOf(rest, ':')] else rest;
              SplitEndpoint(address, listenPort) == (address[..i], if Atoi(field).Some? then Atoi(field).value else listenPort)
  {
    if ':' in address {
      var i := IndexOf(address, ':');
      SplitAtFirst(address, ':');
      SplitFirstField(address[i + 1..], ':');
    }
  }

  /** An endpoint written `host:port` with a 64-bit port splits back into its host and port. */
  lemma SplitEndpointRoundTrip(host: string, port: int, listenPort: int)
    requires ':' !in host && MinInt64 <= port <= MaxInt64
    ensures SplitEndpoint(host + ":" + FormatInt(port), listenPort) == (host, port)
  {
    var text := FormatInt(port);
    FormatIntChars(port);
    assert host + ":" + text == host + [':'] + text;
    SplitAfterField(host, text, ':');
    SplitNoSep(text, ':');
    AtoiFormatInt(port);
  }

  /** The settings of the `[Interface]` section, in the order they are written. */
  const InterfaceKeys: seq<Key> := [Address, PrivateKey, DNS, MTU, FwMark]

  /** The settings of the `[Peer]` section, in the order they are written. */
  const PeerKeys: seq<Key> := [PublicKey, PresharedKey, AllowedIPs, Endpoint, PersistentKeepalive]

  /** The value `BuildPeerConfig` gives each setting, None for a line it leaves out. */
  function PeerConfigValue(peer: Peer, server: Server, setting: GlobalSetting, k: Key): Option<string>
  {
    match k
    case Address => Some(Join(peer.allocatedIPs, ','))
    case PrivateKey => Some(peer.privateKey)
    case DNS => if peer.useServerDNS then Some(Join(setting.dnsServers, ',')) else None
    case MTU => if setting.mtu > 0 then Some(FormatInt(setting.mtu)) else None
    case FwMark => if setting.forwardMark != "" then Some(setting.forwardMark) else None
    case PublicKey => Some(server.keyPair.publicKey)
    case PresharedKey => if peer.presharedKey != "" then Some(peer.presharedKey) else None
    case AllowedIPs => Some(Join(peer.allowedIPs, ','))
    case Endpoint => Some(EndpointText(setting.endpointAddress, server.iface.listenPort))
    case PersistentKeepalive =>
      if setting.persistentKeepalive > 0 then Some(FormatInt(setting.persistentKeepalive)) else None
  }

  /** The `Endpoint` value: `host:port` as `SplitEndpoint` finds them. */
  function EndpointText(address: string, listenPort: int): string
  {
    SplitEndpoint(address, listenPort).0 + ":" + FormatInt(SplitEndpoint(address, listenPort).1)
  }

  const AllKeys: set<Key> := {Address, PrivateKey, DNS, MTU, FwMark, PublicKey, PresharedKey, AllowedIPs, Endpoint, PersistentKeepalive}

  /** The settings table of the client configuration of `peer`. */
  function PeerConfigValues(peer: Peer, server: Server, setting: GlobalSetting): map<Key, string>
  {
    map k | k in AllKeys && PeerConfigValue(peer, server, setting, k).Some? :: PeerConfigValue(peer, server, setting, k).value
  }

  lemma AllKeysComplete(k: Key)
    ensures k in AllKeys
  {
  }

  /** The lines of the client configuration: the two section headers, a blank line between them, and the settings. */
  function PeerConfigEntries(peer: Peer, server: Server, setting: GlobalSetting): seq<Entry>
  {
    var values := PeerConfigValues(peer, server, setting);
    [Header("[Interface]")] + Lines(InterfaceKeys, values) + [Header(""), Header("[Peer]")] + Lines(PeerKeys, values)
  }

  /** `fmt.Sprintf("<name> = %s\n", value)`. */
  function SettingLine(name: string, value: string): string
  {
    name + " = " + value + "\n"
  }

  /** The line written for `k`: its setting line, or nothing when the setting is left out. */
  function PieceFor(peer: Peer, server: Server, setting: GlobalSetting, k: Key): string
  {
    match PeerConfigValue(peer, server, setting, k)
    case Some(v) => SettingLine(KeyName(k), v)
    case None => ""
  }

  /**
   * `BuildPeerConfig`: the `[Interface]` header, the interface settings, a
   * blank line, the `[Peer]` header and the peer settings, each setting
   * written as `Key = value` on a line of its own or left out.
   */
  function BuildPeerConfig(peer: Peer, server: Server, setting: GlobalSetting): (text: string)
    ensures text == Render(PeerConfigEntries(peer, server, setting))
  {
    RenderPieces(peer, server, setting);
    "[Interface]\n" +
    PieceFor(peer, server, setting, Address) + PieceFor(peer, server, setting, PrivateKey) +
    PieceFor(peer, server, setting, DNS) + PieceFor(peer, server, setting, MTU) + PieceFor(peer, server, setting, FwMark) +
    "\n[Peer]\n" +
    PieceFor(peer, server, setting, PublicKey) + PieceFor(peer, server, setting, PresharedKey) +
    PieceFor(peer, server, setting, AllowedIPs) + PieceFor(peer, server, setting, Endpoint) +
    PieceFor(peer, server, setting, PersistentKeepalive)
  }

  lemma PieceRenders(peer: Peer, server: Server, setting: GlobalSetting, k: Key)
    ensures Render(LineOf(k, PeerConfigValues(peer, server, setting))) == PieceFor(peer, server, setting, k)
  {
    AllKeysComplete(k);
    LineOfText(k, PeerConfigValues(peer, server, setting));
  }

  /** Unfolding `Lines` over five keys. */
  lemma RenderFive(a: Key, b: Key, c: Key, d: Key, e: Key, values: map<Key, string>)
    ensures Render(Lines([a, b, c, d, e], values)) ==
      Render(LineOf(a, values)) + Render(LineOf(b, values)) + Render(LineOf(c, values)) +
      Render(LineOf(d, values)) + Render(LineOf(e, values))
  {
    var k5, k4, k3, k2, k1 := [a, b, c, d, e], [b, c, d, e], [c, d, e], [d, e], [e];
    assert k5[1..] == k4 && k4[1..] == k3 && k3[1..] == k2 && k2[1..] == k1 && k1[1..] == [];
    var ra, rb, rc, rd, re := Render(LineOf(a, values)), Render(LineOf(b, values)), Render(LineOf(c, values)),
                              Render(LineOf(d, values)), Render(LineOf(e, values));
    RenderLinesStep(k1, values);
    assert Render(Lines(k1, values)) == re;
    RenderLinesStep(k2, values);
    assert Render(Lines(k2, values)) == rd + re;
    RenderLinesStep(k3, values);
    Assoc(rc, rd, re);
    RenderLinesStep(k4, values);
    Assoc(rb, rc + rd, re);
    Assoc(rb, rc, rd);
    RenderLinesStep(k5, values);
    Assoc(ra, rb + rc + rd, re);
    Assoc(ra, rb + rc, rd);
    Assoc(ra, rb, rc);
  }

  /** Proof helper: regrouping a concatenation of three strings. */
  lemma Assoc(a: string, b: string, c: string)
    ensures a + (b + c) == a + b + c
  {
  }

  /** Proof helper: regrouping a string followed by a concatenation of five. */
  lemma Flatten(x: string, a: string, b: string, c: string, d: string, e: string)
    ensures x + (a + b + c + d + e) == x + a + b + c + d + e
  {
    Assoc(x, a + b + c + d, e);
    Assoc(x, a + b + c, d);
    Assoc(x, a + b, c);
    Assoc(x, a, b);
  }

  /** The text of one section's settings: the piece of each of its five keys in order. */
  lemma SectionPieces(peer: Peer, server: Server, setting: GlobalSetting, k1: Key, k2: Key, k3: Key, k4: Key, k5: Key)
    ensures Render(Lines([k1, k2, k3, k4, k5], PeerConfigValues(peer, server, setting))) ==
      PieceFor(peer, server, setting, k1) + PieceFor(peer, server, setting, k2) + PieceFor(peer, server, setting, k3) +
      PieceFor(peer, server, setting, k4) + PieceFor(peer, server, setting, k5)
  {
    PieceRenders(peer, server, setting, k1);
    PieceRenders(peer, server, setting, k2);
    PieceRenders(peer, server, setting, k3);
    PieceRenders(peer, server, setting, k4);
    PieceRenders(peer, server, setting, k5);
    RenderFive(k1, k2, k3, k4, k5, PeerConfigValues(peer, server, setting));
  }

  /** Rendering the two headed sections one after the other. */
  lemma RenderSections(front: seq<Entry>, back: seq<Entry>, a: string, b: string, c: string, d: string, e: string,
                       f: string, g: string, h: string, i: string, j: string)
    requires Render(front) == a + b + c + d + e && Render(back) == f + g + h + i + j
    ensures Render([Header("[Interface]")] + front + [Header(""), Header("[Peer]")] + back) ==
      "[Interface]\n" + a + b + c + d + e + "\n[Peer]\n" + f + g + h + i + j
  {
    var head, middle := [Header("[Interface]")], [Header(""), Header("[Peer]")];
    assert Render(head) == "[Interface]\n";
    assert Render(middle) == "\n[Peer]\n";
    RenderAppend(head, front);
    Flatten("[Interface]\n", a, b, c, d, e);
    var upper := "[Interface]\n" + a + b + c + d + e;
    RenderAppend(head + front, middle);
    RenderAppend(head + front + middle, back);
    Flatten(upper + "\n[Peer]\n", f, g, h, i, j);
  }

  /** The text of the configuration's lines, one piece per setting in the written order. */
  lemma RenderPieces(peer: Peer, server: Server, setting: GlobalSetting)
    ensures Render(PeerConfigEntries(peer, server, setting)) ==
      "[Interface]\n" + PieceFor(peer, server, setting, Address) + PieceFor(peer, server, setting, PrivateKey) +
      PieceFor(peer, server, setting, DNS) + PieceFor(peer, server, setting, MTU) + PieceFor(peer, server, setting, FwMark) +
      "\n[Peer]\n" + PieceFor(peer, server, setting, PublicKey) + PieceFor(peer, server, setting, PresharedKey) +
      PieceFor(peer, server, setting, AllowedIPs) + PieceFor(peer, server, setting, Endpoint) +
      PieceFor(peer, server, setting, PersistentKeepalive)
  {
    var m := PeerConfigValues(peer, server, setting);
    SectionPieces(peer, server, setting, Address, PrivateKey, DNS, MTU, FwMark);
    SectionPieces(peer, server, setting, PublicKey, PresharedKey, AllowedIPs, Endpoint, PersistentKeepalive);
    RenderSections(Lines(InterfaceKeys, m), Lines(PeerKeys, m),
      PieceFor(peer, server, setting, Address), PieceFor(peer, server, setting, PrivateKey),
      PieceFor(peer, server, setting, DNS), PieceFor(peer, server, setting, MTU), PieceFor(peer, server, setting, FwMark),
      PieceFor(peer, server, setting, PublicKey), PieceFor(peer, server, setting, PresharedKey),
      PieceFor(peer, server, setting, AllowedIPs), PieceFor(peer, server, setting, Endpoint),
      PieceFor(peer, server, setting, PersistentKeepalive));
  }

  /** No value of the configuration spans two lines. */
  predicate SingleLineValues(peer: Peer, server: Server, setting: GlobalSetting)
  {
    forall k :: PeerConfigValue(peer, server, setting, k).Some? ==> '\n' !in PeerConfigValue(peer, server, setting, k).value
  }

  lemma PeerConfigOneLine(peer: Peer, server: Server, setting: GlobalSetting)
    requires SingleLineValues(peer, server, setting)
    ensures OneLineEach(PeerConfigEntries(peer, server, setting))
  {
    var m := PeerConfigValues(peer, server, setting);
    var front, back := Lines(InterfaceKeys, m), Lines(PeerKeys, m);
    var head, middle := [Header("[Interface]")], [Header(""), Header("[Peer]")];
    forall k | k in m ensures '\n' !in m[k] {
      assert PeerConfigValue(peer, server, setting, k).Some?;
    }
    LinesOneLine(InterfaceKeys, m);
    LinesOneLine(PeerKeys, m);
    var es := head + front + middle + back;
    forall i | 0 <= i < |es| ensures '\n' !in EntryLine(es[i]) && (es[i].Header? ==> PlainHeader(es[i].text)) {
      if i == 0 {
        assert es[i] == head[0];
      } else if i < 1 + |front| {
        assert es[i] == front[i - 1];
      } else if i < 3 + |front| {
        assert es[i] == middle[i - 1 - |front|];
      } else {
        assert es[i] == back[i - 3 - |front|];
      }
    }
  }

  /**
   * Reading the client configuration back: every setting is found with the
   * value `PeerConfigValue` gives it, and a setting it leaves out is absent,
   * as long as no value spans two lines.
   */
  lemma PeerConfigLookup(peer: Peer, server: Server, setting: GlobalSetting, k: Key)
    requires SingleLineValues(peer, server, setting)
    ensures Lookup(BuildPeerConfig(peer, server, setting), k) == PeerConfigValue(peer, server, setting, k)
  {
    var m := PeerConfigValues(peer, server, setting);
    var front, back := Lines(InterfaceKeys, m), Lines(PeerKeys, m);
    var head, middle := [Header("[Interface]")], [Header(""), Header("[Peer]")];
    PeerConfigOneLine(peer, server, setting);
    RenderLookup(PeerConfigEntries(peer, server, setting), k);
    SettingAppend(head + front + middle, back, k);
    SettingAppend(head + front, middle, k);
    SettingAppend(head, front, k);
    assert Setting(head, k) == None;
    assert Setting(middle, k) == None by {
      assert middle[1..] == [Header("[Peer]")] && middle[1..][1..] == [];
    }
    SettingLines(InterfaceKeys, m, k);
    SettingLines(PeerKeys, m, k);
    AllKeysComplete(k);
  }

  /** Proof helper: the value `PeerConfigValue` assigns each key, spelled out for the lemmas below. */
  lemma PeerConfigValueTable(peer: Peer, server: Server, setting: GlobalSetting)
    ensures PeerConfigValue(peer, server, setting, Address) == Some(Join(peer.allocatedIPs, ','))
    ensures PeerConfigValue(peer, server, setting, PrivateKey) == Some(peer.privateKey)
    ensures PeerConfigValue(peer, server, setting, PublicKey) == Some(server.keyPair.publicKey)
    ensures PeerConfigValue(peer, server, setting, AllowedIPs) == Some(Join(peer.allowedIPs, ','))
    ensures PeerConfigValue(peer, server, setting, Endpoint) == Some(EndpointText(setting.endpointAddress, server.iface.listenPort))
    ensures PeerConfigValue(peer, server, setting, DNS) == if peer.useServerDNS then Some(Join(setting.dnsServers, ',')) else None
    ensures PeerConfigValue(peer, server, setting, MTU) == if setting.mtu > 0 then Some(FormatInt(setting.mtu)) else None
    ensures PeerConfigValue(peer, server, setting, FwMark) == if setting.forwardMark != "" then Some(setting.forwardMark) else None
    ensures PeerConfigValue(peer, server, setting, PresharedKey) == if peer.presharedKey != "" then Some(peer.presharedKey) else None
    ensures PeerConfigValue(peer, server, setting, PersistentKeepalive) ==
              if setting.persistentKeepalive > 0 then Some(FormatInt(setting.persistentKeepalive)) else None
  {
  }

  /**
   * The settings `BuildPeerConfig` always writes: `Address`, `PrivateKey`
   * (even when empty), `PublicKey` (the server's), `AllowedIPs` (the peer's
   * allowed IPs, never the extra ones) and `Endpoint`.
   */
  lemma PeerConfigFixedLines(peer: Peer, server: Server, setting: GlobalSetting)
    requires SingleLineValues(peer, server, setting)
    ensures Lookup(BuildPeerConfig(peer, server, setting), Address) == Some(Join(peer.allocatedIPs, ','))
    ensures Lookup(BuildPeerConfig(peer, server, setting), PrivateKey) == Some(peer.privateKey)
    ensures Lookup(BuildPeerConfig(peer, server, setting), PublicKey) == Some(server.keyPair.publicKey)
    ensures Lookup(BuildPeerConfig(peer, server, setting), AllowedIPs) == Some(Join(peer.allowedIPs, ','))
    ensures Lookup(BuildPeerConfig(peer, server, setting), Endpoint) ==
              Some(EndpointText(setting.endpointAddress, server.iface.listenPort))
  {
    PeerConfigValueTable(peer, server, setting);
    PeerConfigLookup(peer, server, setting, Address);
    PeerConfigLookup(peer, server, setting, PrivateKey);
    PeerConfigLookup(peer, server, setting, PublicKey);
    PeerConfigLookup(peer, server, setting, AllowedIPs);
    PeerConfigLookup(peer, server, setting, Endpoint);
  }

  /**
   * The settings `BuildPeerConfig` writes only sometimes: `DNS` exactly when
   * the peer uses the server's DNS, `MTU` exactly when it is positive,
   * `FwMark` exactly when it is set, `PresharedKey` exactly when the peer has
   * one and `PersistentKeepalive` exactly when it is positive.
   */
  lemma PeerConfigOptionalLines(peer: Peer, server: Server, setting: GlobalSetting)
    requires SingleLineValues(peer, server, setting)
    ensures Lookup(BuildPeerConfig(peer, server, setting), DNS) ==
              if peer.useServerDNS then Some(Join(setting.dnsServers, ',')) else None
    ensures Lookup(BuildPeerConfig(peer, server, setting), MTU) == if setting.mtu > 0 then Some(FormatInt(setting.mtu)) else None
    ensures Lookup(BuildPeerConfig(peer, server, setting), FwMark) ==
              if setting.forwardMark != "" then Some(setting.forwardMark) else None
    ensures Lookup(BuildPeerConfig(peer, server, setting), PresharedKey) ==
              if peer.presharedKey != "" then Some(peer.presharedKey) else None
    ensures Lookup(BuildPeerConfig(peer, server, setting), PersistentKeepalive) ==
              if setting.persistentKeepalive > 0 then Some(FormatInt(setting.persistentKeepalive)) else None
  {
    PeerConfigValueTable(peer, server, setting);
    PeerConfigLookup(peer, server, setting, DNS);
    PeerConfigLookup(peer, server, setting, MTU);
    PeerConfigLookup(peer, server, setting, FwMark);
    PeerConfigLookup(peer, server, setting, PresharedKey);
    PeerConfigLookup(peer, server, setting, PersistentKeepalive);
  }

  /** The extra allowed IPs play no part in the client configuration. */
  lemma PeerConfigIgnoresExtra(peer: Peer, server: Server, setting: GlobalSetting, extra: seq<string>)
    ensures BuildPeerConfig(peer.(extraAllowedIPs := extra), server, setting) == BuildPeerConfig(peer, server, setting)
  {
    var other := peer.(extraAllowedIPs := extra);
    forall k ensures PeerConfigValue(other, server, setting, k) == PeerConfigValue(peer, server, setting, k) {
    }
    assert PeerConfigValues(other, server, setting) == PeerConfigValues(peer, server, setting);
    assert PeerConfigEntries(other, server, setting) == PeerConfigEntries(peer, server, setting);
  }

  /**
   * `[Interface]` first; at some position `p` the `[Peer]` header after a
   * blank line, with the interface settings before it and the peer settings
   * after it; the settings in increasing `Rank` order.
   */
  predicate Sectioned(es: seq<Entry>)
  {
    && |es| > 0 && es[0] == Header("[Interface]") && Ascending(es)
    && exists p :: 1 < p < |es| && es[p - 1] == Header("") && es[p] == Header("[Peer]") && DividedAt(es, p)
  }

  /** The settings before position `p` are interface settings, those after it peer settings. */
  predicate DividedAt(es: seq<Entry>, p: nat)
  {
    && (forall i :: 0 <= i < p && i < |es| && es[i].Set? ==> Rank(es[i].key) < Rank(PublicKey))
    && (forall i :: p <= i < |es| && es[i].Set? ==> Rank(PublicKey) <= Rank(es[i].key))
  }

  lemma SectionsInOrder(front: seq<Entry>, back: seq<Entry>)
    requires Ascending(front) && Ascending(back)
    requires forall e :: e in front ==> e.Set? && Rank(e.key) < Rank(PublicKey)
    requires forall e :: e in back ==> e.Set? && Rank(PublicKey) <= Rank(e.key)
    ensures Sectioned([Header("[Interface]")] + front + [Header(""), Header("[Peer]")] + back)
  {
    var es := [Header("[Interface]")] + front + [Header(""), Header("[Peer]")] + back;
    var p := 2 + |front|;
    forall i | 0 <= i < |es| && es[i].Set? ensures i < p ==> Rank(es[i].key) < Rank(PublicKey)
                                           ensures p <= i ==> Rank(PublicKey) <= Rank(es[i].key) {
      if i < 1 + |front| {
        assert es[i] == front[i - 1] && es[i] in front;
      } else {
        assert es[i] == back[i - 3 - |front|] && es[i] in back;
      }
    }
    forall i, j | 0 <= i < j < |es| && es[i].Set? && es[j].Set? ensures Rank(es[i].key) < Rank(es[j].key) {
      if j < p {
        assert es[i] == front[i - 1] && es[j] == front[j - 1];
      } else if i >= p {
        assert es[i] == back[i - 3 - |front|] && es[j] == back[j - 3 - |front|];
      } else {
        assert es[i] in front && es[j] in back;
      }
    }
    assert es[p - 1] == Header("") && es[p] == Header("[Peer]");
  }

  /** Each section lists its keys in increasing `Rank`, the interface keys ranking below the peer keys. */
  lemma SectionKeys()
    ensures Increasing(InterfaceKeys) && Increasing(PeerKeys)
    ensures forall k :: k in InterfaceKeys ==> Rank(k) < Rank(PublicKey)
    ensures forall k :: k in PeerKeys ==> Rank(PublicKey) <= Rank(k)
  {
    forall i, j | 0 <= i < j < |InterfaceKeys| ensures Rank(InterfaceKeys[i]) < Rank(InterfaceKeys[j]) {
      assert Rank(InterfaceKeys[i]) == i && Rank(InterfaceKeys[j]) == j;
    }
    forall i, j | 0 <= i < j < |PeerKeys| ensures Rank(PeerKeys[i]) < Rank(PeerKeys[j]) {
      assert Rank(PeerKeys[i]) == i + 5 && Rank(PeerKeys[j]) == j + 5;
    }
  }

  /** The text's lines are the entries' lines, followed by the empty text after the last newline. */
  lemma PeerConfigLines(peer: Peer, server: Server, setting: GlobalSetting)
    requires SingleLineValues(peer, server, setting)
    ensures Split(BuildPeerConfig(peer, server, setting), '\n') == EntryLines(PeerConfigEntries(peer, server, setting)) + [""]
  {
    PeerConfigOneLine(peer, server, setting);
    RenderLines(PeerConfigEntries(peer, server, setting));
  }

  /**
   * The line order is fixed: the `[Interface]` header comes first, a blank
   * line and the `[Peer]` header separate the interface settings from the
   * peer settings, and the settings appear in increasing `Rank` order.
   */
  lemma PeerConfigOrder(peer: Peer, server: Server, setting: GlobalSetting)
    ensures Sectioned(PeerConfigEntries(peer, server, setting))
  {
    var m := PeerConfigValues(peer, server, setting);
    SectionKeys();
    LinesShape(InterfaceKeys, m);
    LinesShape(PeerKeys, m);
    LinesMembers(InterfaceKeys, m);
    LinesMembers(PeerKeys, m);
    SectionsInOrder(Lines(InterfaceKeys, m), Lines(PeerKeys, m));
  }
}
