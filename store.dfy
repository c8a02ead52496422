/**
 * The JSON file database behind the service (`internal/store/jsondb`), as a
 * value. Scribble keeps one file per record: `server/interfaces.json`,
 * `server/keypair.json`, `server/global_settings.json` and
 * `clients/<id>.json`, and lists a collection in the order of its file
 * names. Faults of the file system are part of the state: a listing or a
 * write that fails does so with the error the state carries.
 */
module Store {
  import opened Wrappers
  import opened Model

  // ---------------------------------------------------------------- listing order

  /** The file scribble writes for the record `id`. */
  function FileName(id: string): string { id + ".json" }

  /** Go's `<` on strings, character by character. */
  predicate Below(a: string, b: string)
    decreases |a|
  {
    if |a| == 0 then |b| > 0
    else |b| > 0 && (a[0] < b[0] || (a[0] == b[0] && Below(a[1..], b[1..])))
  }

  lemma {:induction false} BelowIrreflexive(a: string)
    ensures !Below(a, a)
    decreases |a|
  {
    if |a| > 0 { BelowIrreflexive(a[1..]); }
  }

  lemma {:induction false} BelowTransitive(a: string, b: string, c: string)
    requires Below(a, b) && Below(b, c)
    ensures Below(a, c)
    decreases |a|
  {
    if |a| > 0 && a[0] == b[0] == c[0] {
      BelowTransitive(a[1..], b[1..], c[1..]);
    }
  }

  lemma {:induction false} BelowTotal(a: string, b: string)
    requires a != b
    ensures Below(a, b) || Below(b, a)
    decreases |a|
  {
    if |a| > 0 && |b| > 0 && a[0] == b[0] {
      assert a == [a[0]] + a[1..] && b == [b[0]] + b[1..];
      BelowTotal(a[1..], b[1..]);
    }
  }

  lemma FileNameInjective(x: string, y: string)
    requires FileName(x) == FileName(y)
    ensures x == y
  {
    assert |x| == |y|;
    assert x == FileName(x)[..|x|];
  }

  /** Every record of `ps` files after the name `f`. */
  predicate AllAfter(f: string, ps: seq<Peer>)
  {
    forall i :: 0 <= i < |ps| ==> Below(f, FileName(ps[i].id))
  }

  /** A collection as scribble lists it: strictly increasing file names, so one record per id. */
  predicate Listed(ps: seq<Peer>)
  {
    forall i, j :: 0 <= i < j < |ps| ==> Below(FileName(ps[i].id), FileName(ps[j].id))
  }

  lemma ListedCons(p: Peer, ps: seq<Peer>)
    requires AllAfter(FileName(p.id), ps) && Listed(ps)
    ensures Listed([p] + ps)
  {
    var qs := [p] + ps;
    forall i, j | 0 <= i < j < |qs| ensures Below(FileName(qs[i].id), FileName(qs[j].id)) {
      if i == 0 { assert qs[j] == ps[j - 1]; }
      else { assert qs[i] == ps[i - 1] && qs[j] == ps[j - 1]; }
    }
  }

  lemma ListedTail(ps: seq<Peer>)
    requires Listed(ps) && |ps| > 0
    ensures Listed(ps[1..]) && AllAfter(FileName(ps[0].id), ps[1..])
  {
    assert forall i :: 0 <= i < |ps| - 1 ==> ps[1..][i] == ps[i + 1];
  }

  // ---------------------------------------------------------------- records

  /** The records of a collection by id; for a listed collection every record appears once. */
  function Records(ps: seq<Peer>): map<string, Peer>
    decreases |ps|
  {
    if |ps| == 0 then map[] else Records(ps[1..])[ps[0].id := ps[0]]
  }

  /** A record is filed under its own id. */
  lemma {:induction false} RecordsKeyed(ps: seq<Peer>, id: string)
    requires id in Records(ps)
    ensures Records(ps)[id].id == id
    decreases |ps|
  {
    if ps[0].id != id {
      RecordsKeyed(ps[1..], id);
    }
  }

  /** Scribble's `Write`: a new id's file takes its place in the listing; a known id's file is replaced. */
  function Upsert(ps: seq<Peer>, p: Peer): seq<Peer>
    decreases |ps|
  {
    if |ps| == 0 then [p]
    else if ps[0].id == p.id then [p] + ps[1..]
    else if Below(FileName(p.id), FileName(ps[0].id)) then [p] + ps
    else [ps[0]] + Upsert(ps[1..], p)
  }

  /** Scribble's `Delete` of one record. */
  function Remove(ps: seq<Peer>, id: string): seq<Peer>
    decreases |ps|
  {
    if |ps| == 0 then []
    else if ps[0].id == id then Remove(ps[1..], id)
    else [ps[0]] + Remove(ps[1..], id)
  }

  lemma {:induction false} UpsertRecords(ps: seq<Peer>, p: Peer)
    ensures Records(Upsert(ps, p)) == Records(ps)[p.id := p]
    decreases |ps|
  {
    if |ps| > 0 && ps[0].id != p.id {
      if Below(FileName(p.id), FileName(ps[0].id)) {
        assert ([p] + ps)[1..] == ps;
      } else {
        UpsertRecords(ps[1..], p);
        assert ([ps[0]] + Upsert(ps[1..], p))[1..] == Upsert(ps[1..], p);
      }
    } else if |ps| > 0 {
      assert ([p] + ps[1..])[1..] == ps[1..];
    }
  }

  lemma {:induction false} UpsertAfter(ps: seq<Peer>, p: Peer, f: string)
    requires AllAfter(f, ps) && Below(f, FileName(p.id))
    ensures AllAfter(f, Upsert(ps, p))
    decreases |ps|
  {
    if |ps| > 0 && ps[0].id != p.id && !Below(FileName(p.id), FileName(ps[0].id)) {
      UpsertAfter(ps[1..], p, f);
      var u := Upsert(ps[1..], p);
      assert forall i :: 0 <= i < |u| ==> ([ps[0]] + u)[i + 1] == u[i];
    }
  }

  /** Writing a record keeps the listing in file-name order. */
  lemma {:induction false} UpsertListed(ps: seq<Peer>, p: Peer)
    requires Listed(ps)
    ensures Listed(Upsert(ps, p))
    decreases |ps|
  {
    if |ps| > 0 {
      ListedTail(ps);
      var f0, fp := FileName(ps[0].id), FileName(p.id);
      if ps[0].id == p.id {
        ListedCons(p, ps[1..]);
      } else if Below(fp, f0) {
        forall i | 0 <= i < |ps| ensures Below(fp, FileName(ps[i].id)) {
          if i > 0 { BelowTransitive(fp, f0, FileName(ps[i].id)); }
        }
        ListedCons(p, ps);
      } else {
        if f0 == fp { FileNameInjective(ps[0].id, p.id); }
        BelowTotal(f0, fp);
        UpsertListed(ps[1..], p);
        UpsertAfter(ps[1..], p, f0);
        ListedCons(ps[0], Upsert(ps[1..], p));
      }
    }
  }

  lemma {:induction false} RemoveRecords(ps: seq<Peer>, id: string)
    ensures Records(Remove(ps, id)) == Records(ps) - {id}
    decreases |ps|
  {
    if |ps| > 0 {
      RemoveRecords(ps[1..], id);
      if ps[0].id != id {
        assert ([ps[0]] + Remove(ps[1..], id))[1..] == Remove(ps[1..], id);
      }
    }
  }

  lemma {:induction false} RemoveAfter(ps: seq<Peer>, id: string, f: string)
    requires AllAfter(f, ps)
    ensures AllAfter(f, Remove(ps, id))
    decreases |ps|
  {
    if |ps| > 0 {
      RemoveAfter(ps[1..], id, f);
      var r := Remove(ps[1..], id);
      assert forall i :: 0 <= i < |r| ==> ([ps[0]] + r)[i + 1] == r[i];
    }
  }

  /** Deleting a record keeps the listing in file-name order. */
  lemma {:induction false} RemoveListed(ps: seq<Peer>, id: string)
    requires Listed(ps)
    ensures Listed(Remove(ps, id))
    decreases |ps|
  {
    if |ps| > 0 {
      ListedTail(ps);
      RemoveListed(ps[1..], id);
      if ps[0].id != id {
        RemoveAfter(ps[1..], id, FileName(ps[0].id));
        ListedCons(ps[0], Remove(ps[1..], id));
      }
    }
  }

  // ---------------------------------------------------------------- the database

  datatype Db = Db(
    interfaces: Option<ServerInterface>,   // server/interfaces.json, None when missing
    keypair: Option<ServerKeypair>,        // server/keypair.json
    settings: Option<GlobalSetting>,       // server/global_settings.json
    clients: seq<Peer>,                    // clients/*.json in listing order
    peers: Option<seq<Peer>>,              // a peers/ directory, None when it does not exist
    listFault: Option<Error>,              // reading clients/ fails (unreadable, undecodable record)
    writeFault: Option<Error>)             // writing or deleting a file fails

  predicate Valid(db: Db)
  {
    Listed(db.clients) && (db.peers.Some? ==> Listed(db.peers.value))
  }

  /** `JsonDB.GetServer`: the interface record, then the key pair; either missing is an error. */
  function GetServer(db: Db): (r: Result<Server, Error>)
    ensures r.Success? <==> db.interfaces.Some? && db.keypair.Some?
    ensures r.Success? ==> r.value == Server(db.interfaces.value, db.keypair.value)
  {
    if db.interfaces.None? then Failure(NotFound("server", "interfaces"))
    else if db.keypair.None? then Failure(NotFound("server", "keypair"))
    else Success(Server(db.interfaces.value, db.keypair.value))
  }

  /** `JsonDB.GetGlobalSettings`: the settings record; a missing one is an error. */
  function GetGlobalSettings(db: Db): (r: Result<GlobalSetting, Error>)
    ensures r.Success? <==> db.settings.Some?
    ensures r.Success? ==> r.value == db.settings.value
    ensures r.Failure? ==> r.error == NotFound("server", "global_settings")
  {
    if db.settings.None? then Failure(NotFound("server", "global_settings")) else Success(db.settings.value)
  }

  /** Scribble's `ReadAll("clients")` with every record decoded. */
  function ReadClients(db: Db): Result<seq<Peer>, Error>
  {
    if db.listFault.Some? then Failure(db.listFault.value) else Success(db.clients)
  }

  /** Scribble's `ReadAll("peers")`: a collection nothing in the program writes. */
  function ReadPeersCollection(db: Db): Result<seq<Peer>, Error>
  {
    if db.peers.None? then Failure(NotFound("peers", "")) else Success(db.peers.value)
  }

  function Wrap(ps: seq<Peer>): (ds: seq<PeerData>)
    ensures |ds| == |ps|
    ensures forall i :: 0 <= i < |ps| ==> ds[i] == PeerData(Some(ps[i]), "", "")
  {
    if |ps| == 0 then [] else [PeerData(Some(ps[0]), "", "")] + Wrap(ps[1..])
  }

  /** `JsonDB.GetPeers(false)`: every client in listing order, without QR codes. */
  function GetPeers(db: Db): (r: Result<seq<PeerData>, Error>)
    ensures r.Success? <==> db.listFault.None?
    ensures r.Success? ==> |r.value| == |db.clients|
    ensures r.Success? ==> forall i :: 0 <= i < |db.clients| ==> r.value[i].peer == Some(db.clients[i])
  {
    match ReadClients(db)
    case Failure(e) => Failure(e)
    case Success(ps) => Success(Wrap(ps))
  }

  /** `JsonDB.SavePeer`: the record with the peer's id is created or overwritten; nothing else changes. */
  function SavePeer(db: Db, p: Peer): (r: (Db, Option<Error>))
    requires Valid(db)
    ensures Valid(r.0)
    ensures r.1 == db.writeFault
    ensures r.1.Some? ==> r.0 == db
    ensures r.1.None? ==> Records(r.0.clients) == Records(db.clients)[p.id := p]
    ensures r.1.None? ==> r.0 == db.(clients := r.0.clients)
  {
    if db.writeFault.Some? then (db, db.writeFault)
    else
      UpsertListed(db.clients, p);
      UpsertRecords(db.clients, p);
      (db.(clients := Upsert(db.clients, p)), None)
  }

  /** `JsonDB.GetPeerByID` without a QR code: the record, or an error and a PeerData with no peer. */
  function GetPeerByID(db: Db, id: string): (r: (PeerData, Option<Error>))
    ensures r.1.None? <==> id in Records(db.clients)
    ensures r.1.None? ==> r.0 == PeerData(Some(Records(db.clients)[id]), "", "")
    ensures r.1.Some? ==> r.0.peer.None?
  {
    if id in Records(db.clients) then (PeerData(Some(Records(db.clients)[id]), "", ""), None)
    else (PeerData(None, "", ""), Some(NotFound("clients", id)))
  }

  /** `JsonDB.DeletePeer`: an unknown id is an error; otherwise exactly that record goes. */
  function DeletePeer(db: Db, id: string): (r: (Db, Option<Error>))
    requires Valid(db)
    ensures Valid(r.0)
    ensures id !in Records(db.clients) ==> r == (db, Some(NotFound("clients", id)))
    ensures id in Records(db.clients) ==> r.1 == db.writeFault
    ensures r.1.Some? ==> r.0 == db
    ensures r.1.None? ==> Records(r.0.clients) == Records(db.clients) - {id}
    ensures r.1.None? ==> r.0 == db.(clients := r.0.clients)
  {
    if id !in Records(db.clients) then (db, Some(NotFound("clients", id)))
    else if db.writeFault.Some? then (db, db.writeFault)
    else
      RemoveListed(db.clients, id);
      RemoveRecords(db.clients, id);
      (db.(clients := Remove(db.clients, id)), None)
  }

  /** A second delete of the same id fails and changes nothing. */
  lemma DeleteTwice(db: Db, id: string)
    requires Valid(db) && DeletePeer(db, id).1.None?
    ensures DeletePeer(DeletePeer(db, id).0, id) == (DeletePeer(db, id).0, Some(NotFound("clients", id)))
  {
  }

  /** A saved record reads back unchanged. */
  lemma SaveThenGet(db: Db, p: Peer)
    requires Valid(db) && SavePeer(db, p).1.None?
    ensures GetPeerByID(SavePeer(db, p).0, p.id) == (PeerData(Some(p), "", ""), None)
  {
  }
}
