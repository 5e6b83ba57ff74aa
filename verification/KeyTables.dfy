/** The database methods, the migration and the expiry loop that write key columns. */
module KeyTables {
  import opened Wrappers
  import opened Collections
  import opened KeyStore

  /** A row that is not there, one whose key does not decrypt, or a row read. */
  datatype Lookup<+T> = Missing | Unreadable | Found(value: T)

  function Outcome<T>(r: Option<T>): Lookup<T> {
    match r
    case None => Unreadable
    case Some(v) => Found(v)
  }

  class Tables {
    var on: bool
    var networks: map<int, Bytes>
    var peers: map<int, PeerRow>
    const cipher: Cipher

    constructor (cipher: Cipher)
      ensures this.cipher == cipher && View() == Run(cipher, [])
    {
      this.cipher := cipher;
      on, networks, peers := false, map[], map[];
    }

    ghost function View(): State
      reads this
    {
      State(on, networks, peers)
    }

    method SetEncryptionKey()
      modifies this
      ensures View() == Step(cipher, old(View()), Configure)
    {
      on := true;
    }

    method InsertNetwork(id: int, key: Bytes, nonce: Nonce)
      requires id !in networks
      modifies this
      ensures View() == Step(cipher, old(View()), CreateNetwork(id, key, nonce))
    {
      hide Encrypt;
      var stored := key;
      if on && key != [] {
        stored := Encrypt(cipher, key, nonce);
      }
      networks := networks[id := stored];
    }

    method GetNetwork(id: int) returns (r: Lookup<Bytes>)
      ensures r == if id in networks then Outcome(Fetched(cipher, on, networks[id])) else Missing
    {
      hide Decrypt, IsEncrypted;
      if id !in networks {
        return Missing;
      }
      var v := networks[id];
      if !on || v == [] || !IsEncrypted(v) {
        return Found(v);
      }
      return Outcome(Decrypt(cipher, v));
    }

    method UpdateNetwork(id: int, key: Bytes, nonce: Nonce)
      modifies this`networks
      ensures networks ==
                if id in old(networks) then old(networks)[id := Updated(cipher, on, key, nonce)] else old(networks)
    {
      hide Encrypt, IsEncrypted;
      var stored := key;
      if on && key != [] && !IsEncrypted(key) {
        stored := Encrypt(cipher, key, nonce);
      }
      if id in networks {
        networks := networks[id := stored];
      }
    }

    /** A handler that reads a network and writes it back. */
    method ChangeNetwork(id: int, nonce: Nonce)
      modifies this
      ensures View() == Step(cipher, old(View()), EditNetwork(id, nonce))
    {
      hide Fetched, Updated;
      var key := GetNetwork(id);
      if key.Found? {
        UpdateNetwork(id, key.value, nonce);
      }
    }

    method InsertPeer(id: int, row: PeerRow, nonces: (Nonce, Nonce))
      requires id !in peers
      modifies this
      ensures View() == Step(cipher, old(View()), CreatePeer(id, row, nonces))
    {
      hide Encrypt;
      var key, psk := row.privateKey, row.presharedKey;
      if on {
        if key != [] { key := Encrypt(cipher, key, nonces.0); }
        if psk != [] { psk := Encrypt(cipher, psk, nonces.1); }
      }
      peers := peers[id := row.(privateKey := key, presharedKey := psk)];
    }

    /** decryptPeerKeys overwrites the two fields of the row just read. */
    method GetPeer(id: int) returns (r: Lookup<PeerRow>)
      ensures r == if id in peers then Outcome(FetchedPeer(cipher, on, peers[id])) else Missing
    {
      hide Decrypt, IsEncrypted;
      if id !in peers {
        return Missing;
      }
      var row := peers[id];
      if on && row.privateKey != [] && IsEncrypted(row.privateKey) {
        var plain := Decrypt(cipher, row.privateKey);
        if plain.None? { return Unreadable; }
        row := row.(privateKey := plain.value);
      }
      if on && row.presharedKey != [] && IsEncrypted(row.presharedKey) {
        var plain := Decrypt(cipher, row.presharedKey);
        if plain.None? { return Unreadable; }
        row := row.(presharedKey := plain.value);
      }
      return Found(row);
    }

    method UpdatePeer(id: int, row: PeerRow, nonces: (Nonce, Nonce))
      modifies this`peers
      ensures peers == if id in old(peers) then old(peers)[id := UpdatedPeer(cipher, on, row, nonces)] else old(peers)
    {
      hide Encrypt, IsEncrypted;
      var key, psk := row.privateKey, row.presharedKey;
      if on {
        if key != [] && !IsEncrypted(key) { key := Encrypt(cipher, key, nonces.0); }
        if psk != [] && !IsEncrypted(psk) { psk := Encrypt(cipher, psk, nonces.1); }
      }
      if id in peers {
        peers := peers[id := row.(privateKey := key, presharedKey := psk)];
      }
    }

    /** A handler that reads a peer, changes other columns and writes it back. */
    method ChangePeer(id: int, enabled: bool, expiresAt: Option<int>, nonces: (Nonce, Nonce))
      modifies this
      ensures View() == Step(cipher, old(View()), EditPeer(id, enabled, expiresAt, nonces))
    {
      hide FetchedPeer, UpdatedPeer;
      var row := GetPeer(id);
      if row.Found? {
        UpdatePeer(id, row.value.(enabled := enabled, expiresAt := expiresAt), nonces);
      }
    }

    /** Ids of the enabled rows whose expiry has passed. */
    method ListExpired(now: int) returns (ids: seq<int>)
      ensures NoRepeats(ids) && forall id :: id in ids <==>
                id in peers && peers[id].enabled && peers[id].expiresAt.Some? && peers[id].expiresAt.value < now
    {
      var all := Enumerate(peers.Keys);
      ids := [];
      for i := 0 to |all|
        invariant NoRepeats(ids)
        invariant forall id :: id in ids <==>
                    && id in all[..i] && id in peers
                    && peers[id].enabled && peers[id].expiresAt.Some? && peers[id].expiresAt.value < now
      {
        assert all[..i + 1] == all[..i] + [all[i]];
        assert all[i] in Elems(all) && all[i] !in all[..i];
        var p := peers[all[i]];
        if p.enabled && p.expiresAt.Some? && p.expiresAt.value < now {
          ids := ids + [all[i]];
        }
      }
      assert all[..|all|] == all;
      assert forall id :: id in peers <==> id in Elems(all);
    }

    /** The expiry check: lists rows as stored, then disables and writes back one by one; a
        failing write is skipped. */
    method CheckExpiry(now: int, failed: set<int>, draw: Nonces)
      modifies this
      ensures View() == Step(cipher, old(View()), Expire(now, failed, draw))
      ensures peers.Keys == old(peers).Keys
      ensures forall id :: id in peers ==>
                && peers[id].expiresAt == old(peers)[id].expiresAt
                && (peers[id].enabled <==>
                    old(peers)[id].enabled
                    && (id in failed || old(peers)[id].expiresAt.None? || old(peers)[id].expiresAt.value >= now))
    {
      ExpiryInFields(cipher, View(), now, failed, draw);
      var ids := ListExpired(now);
      ExpireAll(cipher, on, peers, now, ids, failed, draw);
      var listed := map id | id in ids :: peers[id];
      WriteBack(ids, listed, now, failed, draw);
    }

    /** The rows listed are disabled and written back one by one. */
    method WriteBack(ids: seq<int>, listed: map<int, PeerRow>, ghost now: int, failed: set<int>, draw: Nonces)
      requires forall j :: 0 <= j < |ids| ==> ids[j] in peers && ids[j] in listed && listed[ids[j]] == peers[ids[j]]
      modifies this`peers
      ensures peers == ExpireFirst(cipher, on, old(peers), now, Elems(ids), failed, draw)
    {
      hide UpdatedPeer, ExpireFirst;
      ghost var was := peers;
      ExpireStart(cipher, on, was, now, failed, draw);
      assert ids[..0] == [];
      for i := 0 to |ids|
        invariant peers == ExpireFirst(cipher, on, was, now, Elems(ids[..i]), failed, draw)
      {
        ExpireNext(cipher, on, was, now, ids, i, failed, draw);
        ExpireKeys(cipher, on, was, now, Elems(ids[..i]), failed, draw);
        if ids[i] !in failed {
          UpdatePeer(ids[i], listed[ids[i]].(enabled := false), draw(ids[i]));
        }
      }
      assert ids[..|ids|] == ids;
    }

    /** Encrypts network keys, then peer keys; a failing write ends it part-way.  `ns` and
        `ps` are the rows it got through. */
    method MigrateEncryptKeys(draw: Nonces, networkFails: int -> bool, peerFails: int -> bool)
      returns (ok: bool, ghost ns: set<int>, ghost ps: set<int>)
      modifies this
      ensures View() == Step(cipher, old(View()), Migrate(ns, ps, draw))
      ensures ok && on ==> Completes(old(View()), Migrate(ns, ps, draw))
      ensures !ok ==> on && exists id :: (id in networks && networkFails(id)) || (id in peers && peerFails(id))
    {
      hide Updated, UpdatedPeer;
      ns, ps := {}, {};
      if !on {
        return true, ns, ps;
      }
      var c := cipher;
      networks, ok, ns := RewriteRows(networks, (id: int, v: Bytes) => Updated(c, true, v, draw(id).0), networkFails);
      if ok {
        peers, ok, ps := RewriteRows(peers, (id: int, r: PeerRow) => UpdatedPeer(c, true, r, draw(id)), peerFails);
      }
    }
  }

  // ----- Migration, row by row -----

  function Rewritten<T>(rows: map<int, T>, ids: set<int>, enc: (int, T) -> T): map<int, T> {
    map id | id in rows :: if id in ids then enc(id, rows[id]) else rows[id]
  }

  /** Collects the rows that would change, then rewrites them one by one until a write fails. */
  method RewriteRows<T(==)>(rows: map<int, T>, enc: (int, T) -> T, writeFails: int -> bool)
    returns (r: map<int, T>, ok: bool, ghost done: set<int>)
    ensures r == Rewritten(rows, done, enc)
    ensures ok ==> rows.Keys <= done
    ensures !ok ==> exists id :: id in rows && writeFails(id) && enc(id, rows[id]) != rows[id]
  {
    var ids, updates := Changed(rows, enc);
    hide Planned;
    r, done := rows, {};
    assert r == Rewritten(rows, {}, enc);
    for i := 0 to |updates|
      invariant r == Rewritten(rows, done, enc)
      invariant forall j :: 0 <= j < i ==> updates[j].0 in done
    {
      assert updates[i] in updates;
      var id := updates[i].0;
      if writeFails(id) {
        assert enc(id, rows[id]) != rows[id];
        return r, false, done;
      }
      RewriteOne(rows, done, updates[i].0, enc);
      r := r[updates[i].0 := updates[i].1];
      done := done + {updates[i].0};
    }
    RewriteRest(rows, done, ids, updates, enc);
    done := done + rows.Keys;
    ok := true;
  }

  /** The rows that encryption would change, with their new values. */
  method Changed<T(==)>(rows: map<int, T>, enc: (int, T) -> T) returns (ids: seq<int>, updates: seq<(int, T)>)
    ensures Elems(ids) == rows.Keys && (forall j :: 0 <= j < |ids| ==> ids[j] in rows)
    ensures forall u :: u in updates ==> u.0 in rows && u.1 == enc(u.0, rows[u.0]) && u.1 != rows[u.0]
    ensures forall j :: 0 <= j < |ids| ==> enc(ids[j], rows[ids[j]]) == rows[ids[j]] || ids[j] in Planned(updates)
  {
    ids := Enumerate(rows.Keys);
    assert forall id :: id in ids ==> id in Elems(ids);
    updates := [];
    hide Planned;
    for i := 0 to |ids|
      invariant forall u :: u in updates ==> u.0 in rows && u.1 == enc(u.0, rows[u.0]) && u.1 != rows[u.0]
      invariant forall j :: 0 <= j < i ==> enc(ids[j], rows[ids[j]]) == rows[ids[j]] || ids[j] in Planned(updates)
    {
      var v := enc(ids[i], rows[ids[i]]);
      if v != rows[ids[i]] {
        PlanMore(updates, (ids[i], v));
        updates := updates + [(ids[i], v)];
      }
    }
  }

  ghost function Planned<T>(updates: seq<(int, T)>): set<int> {
    set j | 0 <= j < |updates| :: updates[j].0
  }

  lemma PlanMore<T>(updates: seq<(int, T)>, u: (int, T))
    ensures Planned(updates + [u]) == Planned(updates) + {u.0}
  {
    var more := updates + [u];
    assert more[|updates|] == u;
    assert forall j :: 0 <= j < |updates| ==> more[j] == updates[j];
  }

  lemma RewriteOne<T>(rows: map<int, T>, done: set<int>, id: int, enc: (int, T) -> T)
    requires id in rows
    ensures Rewritten(rows, done, enc)[id := enc(id, rows[id])] == Rewritten(rows, done + {id}, enc)
  {
  }

  lemma RewriteRest<T>(rows: map<int, T>, done: set<int>, ids: seq<int>, updates: seq<(int, T)>, enc: (int, T) -> T)
    requires Elems(ids) == rows.Keys && forall j :: 0 <= j < |updates| ==> updates[j].0 in done
    requires forall j :: 0 <= j < |ids| ==>
               ids[j] in rows && (enc(ids[j], rows[ids[j]]) == rows[ids[j]] || ids[j] in Planned(updates))
    ensures Rewritten(rows, done, enc) == Rewritten(rows, done + rows.Keys, enc)
  {
    forall id | id in rows && id !in done
      ensures enc(id, rows[id]) == rows[id]
    {
      assert id in Elems(ids);
      var j :| 0 <= j < |ids| && ids[j] == id;
    }
  }

  // ----- Expiry, row by row -----

  function ExpireFirst(c: Cipher, on: bool, m: map<int, PeerRow>, now: int, ids: set<int>, failed: set<int>,
                       draw: Nonces)
    : map<int, PeerRow>
  {
    map id | id in m ::
      if id in ids && id !in failed then UpdatedPeer(c, on, m[id].(enabled := false), draw(id)) else m[id]
  }

  lemma ExpireKeys(c: Cipher, on: bool, m: map<int, PeerRow>, now: int, ids: set<int>, failed: set<int>, draw: Nonces)
    ensures ExpireFirst(c, on, m, now, ids, failed, draw).Keys == m.Keys
  {
  }

  lemma ExpireStart(c: Cipher, on: bool, m: map<int, PeerRow>, now: int, failed: set<int>, draw: Nonces)
    ensures ExpireFirst(c, on, m, now, Elems([]), failed, draw) == m
  {
  }

  lemma ExpireNext(c: Cipher, on: bool, m: map<int, PeerRow>, now: int, ids: seq<int>, i: nat, failed: set<int>,
                   draw: Nonces)
    requires i < |ids| && ids[i] in m
    ensures ExpireFirst(c, on, m, now, Elems(ids[..i + 1]), failed, draw) ==
            var q := ExpireFirst(c, on, m, now, Elems(ids[..i]), failed, draw);
            if ids[i] in failed then q else q[ids[i] := UpdatedPeer(c, on, m[ids[i]].(enabled := false), draw(ids[i]))]
  {
    hide UpdatedPeer;
    assert ids[..i + 1] == ids[..i] + [ids[i]];
  }

  lemma ExpireAll(c: Cipher, on: bool, m: map<int, PeerRow>, now: int, ids: seq<int>, failed: set<int>, draw: Nonces)
    requires forall id :: id in ids <==> id in m && Expired(m[id], now)
    ensures ExpireFirst(c, on, m, now, Elems(ids), failed, draw) == ExpiredPeers(c, on, m, now, failed, draw)
  {
    hide UpdatedPeer, Expired;
    var a := ExpireFirst(c, on, m, now, Elems(ids), failed, draw);
    var b := ExpiredPeers(c, on, m, now, failed, draw);
    forall id | id in m
      ensures a[id] == b[id]
    {
      assert id in Elems(ids) <==> Expired(m[id], now);
    }
    assert a.Keys == m.Keys == b.Keys;
  }
}
