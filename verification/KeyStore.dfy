/**
 Keys at rest: which stored strings are taken for encrypted, and how creating, reading,
 updating, expiring and migrating rows keep exactly one layer of encryption.  Strings are
 byte strings; AES-GCM is known only by its round trip and its length.
 */
module KeyStore {
  import opened Wrappers
  import opened Arith
  import Base64

  type Bytes = seq<Byte>

  // ----- Sealing one value -----

  /** AES-GCM under the one configured key. */
  datatype Cipher = Cipher(seal: (Bytes, Bytes) -> Bytes, open: (Bytes, Bytes) -> Option<Bytes>)

  ghost predicate Lawful(c: Cipher) {
    && (forall n: Bytes, p: Bytes :: |c.seal(n, p)| == |p| + 16)
    && (forall n: Bytes, p: Bytes :: c.open(n, c.seal(n, p)) == Some(p))
  }

  const NONCE_SIZE := 12
  const MIN_ENCRYPTED := NONCE_SIZE + 1 + 16

  type Nonce = n: Bytes | |n| == NONCE_SIZE witness [0, 0, 0, 0, 0, 0, 0, 0, 0, 0, 0, 0]

  function Encrypt(c: Cipher, plain: Bytes, nonce: Nonce): Bytes {
    if plain == [] then [] else Base64.Encode(nonce + c.seal(nonce, plain))
  }

  function Decrypt(c: Cipher, s: Bytes): Option<Bytes> {
    if s == [] then Some([])
    else
      match Base64.Decode(s)
      case None => None
      case Some(data) => if |data| < MIN_ENCRYPTED then None else c.open(data[..NONCE_SIZE], data[NONCE_SIZE..])
  }

  /** The length test that tells stored ciphertext from a stored key. */
  predicate IsEncrypted(s: Bytes) {
    s != [] &&
    match Base64.Decode(s)
    case None => false
    case Some(data) => |data| >= MIN_ENCRYPTED && |data| != 32
  }

  lemma DecryptEncrypt(c: Cipher, plain: Bytes, nonce: Nonce)
    requires Lawful(c)
    ensures Decrypt(c, Encrypt(c, plain, nonce)) == Some(plain)
  {
    if plain != [] {
      var data := nonce + c.seal(nonce, plain);
      Base64.RoundTrip(data);
      assert data[..NONCE_SIZE] == nonce && data[NONCE_SIZE..] == c.seal(nonce, plain);
    }
  }

  /** Ciphertext is recognised exactly when the plaintext is not four bytes long: only then
      does it come to 32 bytes, the length of a key. */
  lemma RecognisedExactly(c: Cipher, plain: Bytes, nonce: Nonce)
    requires Lawful(c) && plain != []
    ensures IsEncrypted(Encrypt(c, plain, nonce)) <==> |plain| != 4
  {
    hide Base64.Encode, Base64.Decode;
    Base64.RoundTrip(nonce + c.seal(nonce, plain));
  }

  /** Base64 text is taken for ciphertext exactly when it decodes to 29 bytes or more, 32
      excepted; nothing shorter than 29 bytes is decrypted. */
  lemma TakenForCiphertext(c: Cipher, raw: Bytes)
    ensures IsEncrypted(Base64.Encode(raw)) <==> |raw| >= 29 && |raw| != 32
    ensures 0 < |raw| < 29 ==> Decrypt(c, Base64.Encode(raw)) == None
  {
    hide Base64.Encode, Base64.Decode;
    Base64.RoundTrip(raw);
  }

  /** A WireGuard key: 32 bytes in base64. */
  ghost predicate IsKey(k: Bytes) {
    exists raw: Bytes :: |raw| == 32 && k == Base64.Encode(raw)
  }

  lemma KeyFacts(k: Bytes)
    requires IsKey(k)
    ensures |k| == 44 && !IsEncrypted(k)
  {
    hide Base64.Encode, Base64.Decode;
    var raw: Bytes :| |raw| == 32 && k == Base64.Encode(raw);
    Base64.RoundTrip(raw);
  }

  /** What the length test can tell apart, before and after encryption: a caller can check
      this of a value before storing it. */
  predicate Storable(k: Bytes) {
    k == [] || (|k| != 4 && !IsEncrypted(k))
  }

  lemma KeysAreStorable(k: Bytes)
    requires k == [] || IsKey(k)
    ensures Storable(k)
  {
    if k != [] {
      KeyFacts(k);
    }
  }

  // ----- What the database code does with one column -----

  /** Insert: encrypts whatever is not empty. */
  function Inserted(c: Cipher, on: bool, v: Bytes, nonce: Nonce): Bytes {
    if on && v != [] then Encrypt(c, v, nonce) else v
  }

  /** Update: encrypts unless the value already looks encrypted. */
  function Updated(c: Cipher, on: bool, v: Bytes, nonce: Nonce): Bytes {
    if on && v != [] && !IsEncrypted(v) then Encrypt(c, v, nonce) else v
  }

  /** Read: decrypts what looks encrypted. */
  function Fetched(c: Cipher, on: bool, v: Bytes): Option<Bytes> {
    if on && v != [] && IsEncrypted(v) then Decrypt(c, v) else Some(v)
  }

  /** With a key configured, a value inserted is read back exactly when it is not four bytes
      long; a four-byte value comes back still encrypted. */
  lemma ReadBackExactly(c: Cipher, plain: Bytes, nonce: Nonce)
    requires Lawful(c)
    ensures Fetched(c, true, Inserted(c, true, plain, nonce)) == Some(plain) <==> |plain| != 4
  {
    hide IsEncrypted, Decrypt, Base64.Encode;
    if plain != [] {
      assert |Encrypt(c, plain, nonce)| == (12 + |plain| + 16 + 2) / 3 * 4;
      RecognisedExactly(c, plain, nonce);
      DecryptEncrypt(c, plain, nonce);
    }
  }

  /** The stored value is exactly one layer over the key. */
  ghost predicate Sealed(c: Cipher, v: Bytes, k: Bytes) {
    if k == [] then v == [] else exists n: Nonce :: v == Encrypt(c, k, n)
  }

  /** Before migration a row may still hold the key itself. */
  ghost predicate Stored(c: Cipher, on: bool, v: Bytes, k: Bytes) {
    Storable(k) && (v == k || (on && Sealed(c, v, k)))
  }

  lemma SealedFacts(c: Cipher, v: Bytes, k: Bytes)
    requires Lawful(c) && Storable(k) && Sealed(c, v, k)
    ensures k != [] ==> v != [] && IsEncrypted(v) && v != k
    ensures Decrypt(c, v) == Some(k)
  {
    hide IsEncrypted, Decrypt, Encrypt;
    if k != [] {
      var n: Nonce :| v == Encrypt(c, k, n);
      RecognisedExactly(c, k, n);
      DecryptEncrypt(c, k, n);
      assert !IsEncrypted([]) by { EmptyNotEncrypted(); }
    } else {
      assert Decrypt(c, []) == Some([]) by { DecryptEmpty(c); }
    }
  }

  lemma EmptyNotEncrypted()
    ensures !IsEncrypted([])
  {
  }

  lemma DecryptEmpty(c: Cipher)
    ensures Decrypt(c, []) == Some([])
  {
  }

  lemma InsertStores(c: Cipher, on: bool, k: Bytes, nonce: Nonce)
    requires Storable(k)
    ensures Stored(c, on, Inserted(c, on, k, nonce), k)
    ensures on ==> Sealed(c, Inserted(c, on, k, nonce), k)
  {
    hide Encrypt, IsEncrypted;
  }

  /** Reading gives the key back, whether or not the row has been migrated. */
  lemma FetchReads(c: Cipher, on: bool, v: Bytes, k: Bytes)
    requires Lawful(c) && Stored(c, on, v, k)
    ensures Fetched(c, on, v) == Some(k)
  {
    hide Encrypt, Decrypt, IsEncrypted;
    if on && Sealed(c, v, k) {
      SealedFacts(c, v, k);
    }
  }

  /** Writing back either the key or the stored value leaves one layer: a second layer is
      never added, because one layer is recognised and a key is not. */
  lemma UpdateSeals(c: Cipher, on: bool, v: Bytes, k: Bytes, nonce: Nonce)
    requires Lawful(c) && Stored(c, on, v, k)
    ensures Stored(c, on, Updated(c, on, v, nonce), k)
    ensures on ==> Sealed(c, Updated(c, on, v, nonce), k)
    ensures on && Sealed(c, v, k) ==> Updated(c, on, v, nonce) == v
  {
    hide Encrypt, Decrypt, IsEncrypted;
    if on && Sealed(c, v, k) {
      SealedFacts(c, v, k);
    }
  }

  // ----- Rows -----

  datatype PeerRow = PeerRow(privateKey: Bytes, presharedKey: Bytes, enabled: bool, expiresAt: Option<int>)

  /** `on` says that an encryption key is configured. */
  datatype State = State(on: bool, networks: map<int, Bytes>, peers: map<int, PeerRow>)

  /** What the keys are, encryption aside. */
  datatype Truth = Truth(networks: map<int, Bytes>, peers: map<int, PeerRow>)

  type Nonces = int -> (Nonce, Nonce)

  datatype Op =
    | Configure
    | CreateNetwork(id: int, key: Bytes, nonce: Nonce)
    | EditNetwork(id: int, nonce: Nonce)
    | DeleteNetwork(id: int)
    | CreatePeer(id: int, row: PeerRow, nonces: (Nonce, Nonce))
    | EditPeer(id: int, enabled: bool, expiresAt: Option<int>, nonces: (Nonce, Nonce))
    | DeletePeer(id: int)
    | Expire(now: int, failed: set<int>, draw: Nonces)
    | Migrate(networksDone: set<int>, peersDone: set<int>, draw: Nonces)

  function InsertedPeer(c: Cipher, on: bool, r: PeerRow, n: (Nonce, Nonce)): PeerRow {
    r.(privateKey := Inserted(c, on, r.privateKey, n.0), presharedKey := Inserted(c, on, r.presharedKey, n.1))
  }

  function UpdatedPeer(c: Cipher, on: bool, r: PeerRow, n: (Nonce, Nonce)): PeerRow {
    r.(privateKey := Updated(c, on, r.privateKey, n.0), presharedKey := Updated(c, on, r.presharedKey, n.1))
  }

  function FetchedPeer(c: Cipher, on: bool, r: PeerRow): Option<PeerRow> {
    match (Fetched(c, on, r.privateKey), Fetched(c, on, r.presharedKey))
    case (Some(k), Some(p)) => Some(r.(privateKey := k, presharedKey := p))
    case _ => None
  }

  predicate Expired(r: PeerRow, now: int) {
    r.enabled && r.expiresAt.Some? && r.expiresAt.value < now
  }

  /** The expiry loop writes back the row as stored, not as read. */
  function ExpiredPeer(c: Cipher, on: bool, r: PeerRow, now: int, n: (Nonce, Nonce)): PeerRow {
    if Expired(r, now) then UpdatedPeer(c, on, r.(enabled := false), n) else r
  }

  function MigratedNetworks(c: Cipher, m: map<int, Bytes>, ids: set<int>, draw: Nonces): map<int, Bytes> {
    map id | id in m :: if id in ids then Updated(c, true, m[id], draw(id).0) else m[id]
  }

  function MigratedPeers(c: Cipher, m: map<int, PeerRow>, ids: set<int>, draw: Nonces): map<int, PeerRow> {
    map id | id in m :: if id in ids then UpdatedPeer(c, true, m[id], draw(id)) else m[id]
  }

  /** Rows whose expiry has passed are disabled, unless writing them fails. */
  function ExpiredPeers(c: Cipher, on: bool, m: map<int, PeerRow>, now: int, failed: set<int>, draw: Nonces)
    : map<int, PeerRow>
  {
    map id | id in m :: if id in failed then m[id] else ExpiredPeer(c, on, m[id], now, draw(id))
  }

  function Step(c: Cipher, s: State, op: Op): State {
    match op
    case Configure => s.(on := true)
    case CreateNetwork(id, key, nonce) =>
      if id in s.networks then s else s.(networks := s.networks[id := Inserted(c, s.on, key, nonce)])
    case EditNetwork(id, nonce) =>
      if id !in s.networks then s
      else
        (match Fetched(c, s.on, s.networks[id])
         case None => s
         case Some(k) => s.(networks := s.networks[id := Updated(c, s.on, k, nonce)]))
    case DeleteNetwork(id) => s.(networks := s.networks - {id})
    case CreatePeer(id, row, n) =>
      if id in s.peers then s else s.(peers := s.peers[id := InsertedPeer(c, s.on, row, n)])
    case EditPeer(id, enabled, expiresAt, n) =>
      if id !in s.peers then s
      else
        (match FetchedPeer(c, s.on, s.peers[id])
         case None => s
         case Some(r) =>
           var changed := r.(enabled := enabled, expiresAt := expiresAt);
           s.(peers := s.peers[id := UpdatedPeer(c, s.on, changed, n)]))
    case DeletePeer(id) => s.(peers := s.peers - {id})
    case Expire(now, failed, draw) =>
      s.(peers := ExpiredPeers(c, s.on, s.peers, now, failed, draw))
    case Migrate(ns, ps, draw) =>
      if !s.on then s
      else s.(networks := MigratedNetworks(c, s.networks, ns, draw), peers := MigratedPeers(c, s.peers, ps, draw))
  }

  /** What the expiry check does to a row, column by column. */
  lemma ExpiryInFields(c: Cipher, s: State, now: int, failed: set<int>, draw: Nonces)
    ensures var ps := Step(c, s, Expire(now, failed, draw)).peers;
            && ps.Keys == s.peers.Keys
            && forall id :: id in ps ==>
                 && ps[id].expiresAt == s.peers[id].expiresAt
                 && (ps[id].enabled <==>
                     s.peers[id].enabled
                     && (id in failed || s.peers[id].expiresAt.None? || s.peers[id].expiresAt.value >= now))
  {
    hide Updated;
  }

  /** The same operation on the keys themselves. */
  function TrueStep(t: Truth, op: Op): Truth {
    match op
    case CreateNetwork(id, key, _) => if id in t.networks then t else t.(networks := t.networks[id := key])
    case DeleteNetwork(id) => t.(networks := t.networks - {id})
    case CreatePeer(id, row, _) => if id in t.peers then t else t.(peers := t.peers[id := row])
    case EditPeer(id, enabled, expiresAt, _) =>
      if id !in t.peers then t else t.(peers := t.peers[id := t.peers[id].(enabled := enabled, expiresAt := expiresAt)])
    case DeletePeer(id) => t.(peers := t.peers - {id})
    case Expire(now, failed, _) =>
      t.(peers := map id | id in t.peers ::
           if id !in failed && Expired(t.peers[id], now) then t.peers[id].(enabled := false) else t.peers[id])
    case _ => t
  }

  function Run(c: Cipher, ops: seq<Op>): State {
    if ops == [] then State(false, map[], map[]) else Step(c, Run(c, ops[..|ops| - 1]), ops[|ops| - 1])
  }

  function TrueRun(ops: seq<Op>): Truth {
    if ops == [] then Truth(map[], map[]) else TrueStep(TrueRun(ops[..|ops| - 1]), ops[|ops| - 1])
  }

  /** The keys handed to the store are storable, as WireGuard keys are. */
  ghost predicate Proper(op: Op) {
    match op
    case CreateNetwork(_, key, _) => Storable(key)
    case CreatePeer(_, row, _) => Storable(row.privateKey) && Storable(row.presharedKey)
    case _ => true
  }

  // ----- Every run -----

  ghost predicate StoredPeer(c: Cipher, on: bool, r: PeerRow, t: PeerRow) {
    && Stored(c, on, r.privateKey, t.privateKey) && Stored(c, on, r.presharedKey, t.presharedKey)
    && r.enabled == t.enabled && r.expiresAt == t.expiresAt
  }

  ghost predicate SealedPeer(c: Cipher, r: PeerRow, t: PeerRow) {
    Sealed(c, r.privateKey, t.privateKey) && Sealed(c, r.presharedKey, t.presharedKey)
  }

  ghost predicate NetworksHold(c: Cipher, s: State, t: Truth) {
    && s.networks.Keys == t.networks.Keys
    && forall id :: id in s.networks ==> Stored(c, s.on, s.networks[id], t.networks[id])
  }

  ghost predicate PeersHold(c: Cipher, s: State, t: Truth) {
    s.peers.Keys == t.peers.Keys && forall id :: id in s.peers ==> StoredPeer(c, s.on, s.peers[id], t.peers[id])
  }

  /** Every row stores its true key, plain or under one layer. */
  ghost predicate Holds(c: Cipher, s: State, t: Truth) {
    NetworksHold(c, s, t) && PeersHold(c, s, t)
  }

  /** Every row is under exactly one layer. */
  ghost predicate AllSealed(c: Cipher, s: State, t: Truth) {
    && s.on && s.networks.Keys == t.networks.Keys && s.peers.Keys == t.peers.Keys
    && (forall id :: id in s.networks ==> Sealed(c, s.networks[id], t.networks[id]))
    && (forall id :: id in s.peers ==> SealedPeer(c, s.peers[id], t.peers[id]))
  }

  lemma UpdatePeerSeals(c: Cipher, on: bool, r: PeerRow, t: PeerRow, n: (Nonce, Nonce))
    requires Lawful(c) && StoredPeer(c, on, r, t)
    ensures StoredPeer(c, on, UpdatedPeer(c, on, r, n), t)
    ensures on ==> SealedPeer(c, UpdatedPeer(c, on, r, n), t)
    ensures on && SealedPeer(c, r, t) ==> UpdatedPeer(c, on, r, n) == r
  {
    hide Stored, Sealed, Updated;
    UpdateSeals(c, on, r.privateKey, t.privateKey, n.0);
    UpdateSeals(c, on, r.presharedKey, t.presharedKey, n.1);
  }

  lemma FetchPeerReads(c: Cipher, on: bool, r: PeerRow, t: PeerRow)
    requires Lawful(c) && StoredPeer(c, on, r, t)
    ensures FetchedPeer(c, on, r) == Some(t)
  {
    hide Stored, Fetched;
    FetchReads(c, on, r.privateKey, t.privateKey);
    FetchReads(c, on, r.presharedKey, t.presharedKey);
  }

  lemma PlainIsStored(c: Cipher, on: bool, v: Bytes, k: Bytes)
    requires Stored(c, on, v, k)
    ensures Stored(c, on, k, k) && Stored(c, true, v, k)
  {
    hide Storable, Sealed;
  }

  lemma ExpirePeer(c: Cipher, on: bool, r: PeerRow, t: PeerRow, now: int, n: (Nonce, Nonce))
    requires Lawful(c) && StoredPeer(c, on, r, t)
    ensures var t' := if Expired(t, now) then t.(enabled := false) else t;
            && StoredPeer(c, on, ExpiredPeer(c, on, r, now, n), t')
            && (on && SealedPeer(c, r, t) ==> SealedPeer(c, ExpiredPeer(c, on, r, now, n), t'))
  {
    hide Stored, Sealed, UpdatedPeer;
    UpdatePeerSeals(c, on, r.(enabled := false), t.(enabled := false), n);
  }

  lemma StepNetwork(c: Cipher, s: State, t: Truth, op: Op, id: int)
    requires Lawful(c) && Proper(op) && NetworksHold(c, s, t)
    ensures var s', t' := Step(c, s, op), TrueStep(t, op);
            && (id in s'.networks <==> id in t'.networks)
            && (id in s'.networks ==> Stored(c, s'.on, s'.networks[id], t'.networks[id]))
            && (s.on && id in s'.networks && (id in s.networks ==> Sealed(c, s.networks[id], t.networks[id]))
                ==> Sealed(c, s'.networks[id], t'.networks[id]))
  {
    hide Stored, Sealed, Updated, Inserted, Fetched, Storable, FetchedPeer, UpdatedPeer, InsertedPeer, ExpiredPeer,
         Lawful;
    if id in s.networks {
      var v, k := s.networks[id], t.networks[id];
      assert Stored(c, s.on, v, k);
      PlainIsStored(c, s.on, v, k);
      match op
      case EditNetwork(i, nonce) =>
        FetchReads(c, s.on, v, k);
        UpdateSeals(c, s.on, k, k, nonce);
      case Migrate(ns, ps, draw) =>
        UpdateSeals(c, s.on, v, k, draw(id).0);
      case _ =>
    } else if op.CreateNetwork? {
      InsertStores(c, s.on, op.key, op.nonce);
    }
  }

  lemma StepPeer(c: Cipher, s: State, t: Truth, op: Op, id: int)
    requires Lawful(c) && Proper(op) && PeersHold(c, s, t)
    ensures var s', t' := Step(c, s, op), TrueStep(t, op);
            && (id in s'.peers <==> id in t'.peers)
            && (id in s'.peers ==> StoredPeer(c, s'.on, s'.peers[id], t'.peers[id]))
            && (s.on && id in s'.peers && (id in s.peers ==> SealedPeer(c, s.peers[id], t.peers[id]))
                ==> SealedPeer(c, s'.peers[id], t'.peers[id]))
  {
    hide StoredPeer, SealedPeer, Updated, Inserted, Fetched, FetchedPeer, UpdatedPeer, InsertedPeer, ExpiredPeer,
         Lawful, Expired, Storable;
    if id in s.peers {
      var r, k := s.peers[id], t.peers[id];
      assert StoredPeer(c, s.on, r, k);
      PlainPeerIsStored(c, s.on, r, k);
      match op
      case EditPeer(i, enabled, expiresAt, n) =>
        FetchPeerReads(c, s.on, r, k);
        PlainPeerKeeps(c, s.on, k, enabled, expiresAt);
        var changed := k.(enabled := enabled, expiresAt := expiresAt);
        UpdatePeerSeals(c, s.on, changed, changed, n);
      case Migrate(ns, ps, draw) =>
        UpdatePeerSeals(c, s.on, r, k, draw(id));
      case Expire(now, failed, draw) =>
        ExpirePeer(c, s.on, r, k, now, draw(id));
      case _ =>
    } else if op.CreatePeer? {
      InsertPeerStores(c, s.on, op.row, op.nonces);
    }
  }

  lemma PlainPeerIsStored(c: Cipher, on: bool, r: PeerRow, t: PeerRow)
    requires StoredPeer(c, on, r, t)
    ensures StoredPeer(c, on, t, t) && StoredPeer(c, true, r, t)
  {
    hide Stored;
    PlainIsStored(c, on, r.privateKey, t.privateKey);
    PlainIsStored(c, on, r.presharedKey, t.presharedKey);
  }

  lemma PlainPeerKeeps(c: Cipher, on: bool, t: PeerRow, enabled: bool, expiresAt: Option<int>)
    requires StoredPeer(c, on, t, t)
    ensures var u := t.(enabled := enabled, expiresAt := expiresAt); StoredPeer(c, on, u, u)
  {
    hide Stored;
  }

  lemma InsertPeerStores(c: Cipher, on: bool, t: PeerRow, n: (Nonce, Nonce))
    requires Storable(t.privateKey) && Storable(t.presharedKey)
    ensures StoredPeer(c, on, InsertedPeer(c, on, t, n), t)
    ensures on ==> SealedPeer(c, InsertedPeer(c, on, t, n), t)
  {
    hide Stored, Sealed, Inserted, Storable;
    InsertStores(c, on, t.privateKey, n.0);
    InsertStores(c, on, t.presharedKey, n.1);
  }

  lemma StepHolds(c: Cipher, s: State, t: Truth, op: Op)
    requires Lawful(c) && Proper(op) && Holds(c, s, t)
    ensures Holds(c, Step(c, s, op), TrueStep(t, op))
    ensures AllSealed(c, s, t) ==> AllSealed(c, Step(c, s, op), TrueStep(t, op))
  {
    hide Stored, StoredPeer, Sealed, SealedPeer, Step, TrueStep, Proper, Lawful;
    StaysOn(c, s, op);
    forall id
      ensures var s', t' := Step(c, s, op), TrueStep(t, op);
            && (id in s'.networks <==> id in t'.networks)
            && (id in s'.networks ==> Stored(c, s'.on, s'.networks[id], t'.networks[id]))
            && (s.on && id in s'.networks && (id in s.networks ==> Sealed(c, s.networks[id], t.networks[id]))
                ==> Sealed(c, s'.networks[id], t'.networks[id]))
    {
      StepNetwork(c, s, t, op, id);
    }
    forall id
      ensures var s', t' := Step(c, s, op), TrueStep(t, op);
            && (id in s'.peers <==> id in t'.peers)
            && (id in s'.peers ==> StoredPeer(c, s'.on, s'.peers[id], t'.peers[id]))
            && (s.on && id in s'.peers && (id in s.peers ==> SealedPeer(c, s.peers[id], t.peers[id]))
                ==> SealedPeer(c, s'.peers[id], t'.peers[id]))
    {
      StepPeer(c, s, t, op, id);
    }
  }

  lemma StaysOn(c: Cipher, s: State, op: Op)
    ensures s.on ==> Step(c, s, op).on
  {
  }

  ghost predicate ProperRun(ops: seq<Op>) {
    forall i :: 0 <= i < |ops| ==> Proper(ops[i])
  }

  lemma {:induction false} RunHolds(c: Cipher, ops: seq<Op>)
    requires Lawful(c) && ProperRun(ops)
    ensures Holds(c, Run(c, ops), TrueRun(ops))
  {
    hide Lawful, Proper, Step, TrueStep, Stored, StoredPeer;
    if ops != [] {
      RunHolds(c, ops[..|ops| - 1]);
      StepHolds(c, Run(c, ops[..|ops| - 1]), TrueRun(ops[..|ops| - 1]), ops[|ops| - 1]);
    }
  }

  /** After any run every read returns the key that was put in. */
  lemma ReadsReturnTheKey(c: Cipher, ops: seq<Op>, id: int)
    requires Lawful(c) && ProperRun(ops)
    ensures var s, t := Run(c, ops), TrueRun(ops);
            && (id in s.networks <==> id in t.networks) && (id in s.peers <==> id in t.peers)
            && (id in s.networks ==> Fetched(c, s.on, s.networks[id]) == Some(t.networks[id]))
            && (id in s.peers ==> FetchedPeer(c, s.on, s.peers[id]) == Some(t.peers[id]))
  {
    hide Lawful, ProperRun, Run, TrueRun, Stored, StoredPeer, Fetched, FetchedPeer;
    RunHolds(c, ops);
    var s, t := Run(c, ops), TrueRun(ops);
    if id in s.networks {
      FetchReads(c, s.on, s.networks[id], t.networks[id]);
    }
    if id in s.peers {
      FetchPeerReads(c, s.on, s.peers[id], t.peers[id]);
    }
  }

  /** A migration that got through every row. */
  predicate Completes(s: State, op: Op) {
    op.Migrate? && s.on && s.networks.Keys <= op.networksDone && s.peers.Keys <= op.peersDone
  }

  lemma MigrationSeals(c: Cipher, s: State, t: Truth, op: Op)
    requires Lawful(c) && Holds(c, s, t) && Completes(s, op)
    ensures AllSealed(c, Step(c, s, op), TrueStep(t, op))
  {
    hide Stored, StoredPeer, Sealed, SealedPeer, Updated, UpdatedPeer, Lawful;
    forall id | id in s.networks
      ensures Sealed(c, Updated(c, true, s.networks[id], op.draw(id).0), t.networks[id])
    {
      UpdateSeals(c, true, s.networks[id], t.networks[id], op.draw(id).0);
    }
    forall id | id in s.peers
      ensures SealedPeer(c, UpdatedPeer(c, true, s.peers[id], op.draw(id)), t.peers[id])
    {
      UpdatePeerSeals(c, true, s.peers[id], t.peers[id], op.draw(id));
    }
  }

  /** Once a migration has completed, whatever follows, every stored key is under exactly one
      layer of encryption. */
  lemma {:induction false} OneLayerForEver(c: Cipher, ops: seq<Op>, m: nat)
    requires Lawful(c) && ProperRun(ops) && m < |ops| && Completes(Run(c, ops[..m]), ops[m])
    ensures AllSealed(c, Run(c, ops), TrueRun(ops))
    decreases |ops|
  {
    hide Lawful, Proper, Step, TrueStep, Holds, AllSealed, Completes;
    var n := |ops| - 1;
    assert ops[..n][..m] == ops[..m];
    RunHolds(c, ops[..n]);
    if m == n {
      MigrationSeals(c, Run(c, ops[..n]), TrueRun(ops[..n]), ops[n]);
    } else {
      OneLayerForEver(c, ops[..n], m);
      StepHolds(c, Run(c, ops[..n]), TrueRun(ops[..n]), ops[n]);
    }
  }

  /** And a further migration, complete or not, changes no row. */
  lemma SecondMigrationIdle(c: Cipher, ops: seq<Op>, m: nat, op: Op)
    requires Lawful(c) && ProperRun(ops) && m < |ops| && Completes(Run(c, ops[..m]), ops[m]) && op.Migrate?
    ensures Step(c, Run(c, ops), op) == Run(c, ops)
  {
    hide Lawful, ProperRun, Run, TrueRun, Stored, StoredPeer, Sealed, SealedPeer, Updated, UpdatedPeer, Completes;
    OneLayerForEver(c, ops, m);
    RunHolds(c, ops);
    var s, t := Run(c, ops), TrueRun(ops);
    forall id | id in s.networks
      ensures Updated(c, true, s.networks[id], op.draw(id).0) == s.networks[id]
    {
      UpdateSeals(c, true, s.networks[id], t.networks[id], op.draw(id).0);
    }
    forall id | id in s.peers
      ensures UpdatedPeer(c, true, s.peers[id], op.draw(id)) == s.peers[id]
    {
      UpdatePeerSeals(c, true, s.peers[id], t.peers[id], op.draw(id));
    }
  }

  // ----- Exactly which values are kept under one layer -----

  lemma EncryptLonger(c: Cipher, k: Bytes, nonce: Nonce)
    requires Lawful(c) && k != []
    ensures |Encrypt(c, k, nonce)| > |k|
  {
    hide Base64.Encode;
  }

  /** Neither a value without a layer nor one under two is under one. */
  lemma PlainNotSealed(c: Cipher, k: Bytes)
    requires Lawful(c) && k != []
    ensures !Sealed(c, k, k)
  {
    hide Encrypt;
    forall n: Nonce
      ensures k != Encrypt(c, k, n)
    {
      EncryptLonger(c, k, n);
    }
  }

  /** A value that decodes to 29 bytes or more, other than 32, is read back after an insert,
      but the next update takes it for ciphertext and stores it bare. */
  lemma BareAfterEdit(c: Cipher, k: Bytes, n1: Nonce, n2: Nonce)
    requires Lawful(c) && IsEncrypted(k) && |k| != 4
    ensures Fetched(c, true, Inserted(c, true, k, n1)) == Some(k)
    ensures Updated(c, true, k, n2) == k && !Sealed(c, k, k)
  {
    hide Encrypt, Decrypt, Sealed;
    ReadBackExactly(c, k, n1);
    PlainNotSealed(c, k);
  }

  /** Forty bytes in base64 are such a value. */
  lemma FortyBytesNotStorable(raw: Bytes)
    requires |raw| == 40
    ensures var k := Base64.Encode(raw); |k| == 56 && IsEncrypted(k) && !Storable(k)
  {
    hide Base64.Encode, Base64.Decode;
    Base64.RoundTrip(raw);
  }

  /** Every key created in the run is `k` or absent. */
  ghost predicate OnlyKey(ops: seq<Op>, k: Bytes) {
    forall i :: 0 <= i < |ops| ==>
      match ops[i]
      case CreateNetwork(_, key, _) => key == k || key == []
      case CreatePeer(_, row, _) =>
        (row.privateKey == k || row.privateKey == []) && (row.presharedKey == k || row.presharedKey == [])
      case _ => true
  }

  /** After the run every row is under exactly one layer and every read returns its key. */
  ghost predicate Kept(c: Cipher, ops: seq<Op>) {
    var s, t := Run(c, ops), TrueRun(ops);
    && AllSealed(c, s, t)
    && (forall id :: id in s.networks ==> Fetched(c, s.on, s.networks[id]) == Some(t.networks[id]))
    && (forall id :: id in s.peers ==> FetchedPeer(c, s.on, s.peers[id]) == Some(t.peers[id]))
  }

  ghost predicate Migrated(c: Cipher, ops: seq<Op>) {
    exists m :: 0 <= m < |ops| && Completes(Run(c, ops[..m]), ops[m])
  }

  lemma StorableKept(c: Cipher, k: Bytes, ops: seq<Op>)
    requires Lawful(c) && Storable(k) && OnlyKey(ops, k) && Migrated(c, ops)
    ensures Kept(c, ops)
  {
    hide Lawful, Storable, Run, TrueRun, AllSealed, Fetched, FetchedPeer, Completes;
    assert ProperRun(ops) by { EmptyStorable(); }
    var m :| 0 <= m < |ops| && Completes(Run(c, ops[..m]), ops[m]);
    OneLayerForEver(c, ops, m);
    forall id
      ensures var s, t := Run(c, ops), TrueRun(ops);
              && (id in s.networks <==> id in t.networks) && (id in s.peers <==> id in t.peers)
              && (id in s.networks ==> Fetched(c, s.on, s.networks[id]) == Some(t.networks[id]))
              && (id in s.peers ==> FetchedPeer(c, s.on, s.peers[id]) == Some(t.peers[id]))
    {
      ReadsReturnTheKey(c, ops, id);
    }
  }

  lemma EmptyStorable()
    ensures Storable([])
  {
  }

  /** Create one network, migrate, edit it once. */
  function Probe(k: Bytes, n: Nonce): seq<Op> {
    [Configure, CreateNetwork(1, k, n), Migrate({1}, {}, _ => (n, n)), EditNetwork(1, n)]
  }

  lemma ProbeRun(c: Cipher, k: Bytes, n: Nonce)
    ensures var v := Updated(c, true, Inserted(c, true, k, n), n);
            && Run(c, Probe(k, n)[..2]) == State(true, map[1 := Inserted(c, true, k, n)], map[])
            && Run(c, Probe(k, n)) == State(true, map[1 := match Fetched(c, true, v)
                                                           case None => v
                                                           case Some(x) => Updated(c, true, x, n)], map[])
            && TrueRun(Probe(k, n)) == Truth(map[1 := k], map[])
  {
    hide Updated, Inserted, Fetched, UpdatedPeer;
    var ops := Probe(k, n);
    assert ops[..4] == ops && ops[..4][..3] == ops[..3] && ops[..3][..2] == ops[..2];
    assert ops[..2][..1] == ops[..1] && ops[..1][..0] == [];
    var s2 := State(true, map[1 := Inserted(c, true, k, n)], map[]);
    assert Run(c, ops[..1]) == State(true, map[], map[]);
    assert Run(c, ops[..2]) == s2;
    assert Run(c, ops[..3]).networks == map[1 := Updated(c, true, Inserted(c, true, k, n), n)];
    assert TrueRun(ops[..1]) == Truth(map[], map[]);
    assert TrueRun(ops[..2]) == Truth(map[1 := k], map[]);
    assert TrueRun(ops[..3]) == Truth(map[1 := k], map[]);
  }

  /** A four-byte value is wrapped once more by each write, and never read back. */
  lemma FourNotRead(c: Cipher, k: Bytes, n: Nonce)
    requires Lawful(c) && |k| == 4
    ensures var v := Updated(c, true, Inserted(c, true, k, n), n);
            && Fetched(c, true, v) == Some(Inserted(c, true, k, n))
            && Fetched(c, true, Updated(c, true, Inserted(c, true, k, n), n)) != Some(k)
  {
    hide Base64.Encode, Decrypt, IsEncrypted;
    var e := Encrypt(c, k, n);
    RecognisedExactly(c, k, n);
    EncryptLonger(c, k, n);
    RecognisedExactly(c, e, n);
    DecryptEncrypt(c, e, n);
    EncryptLonger(c, e, n);
  }

  lemma ProbeFails(c: Cipher, k: Bytes, n: Nonce)
    requires Lawful(c) && !Storable(k)
    ensures OnlyKey(Probe(k, n), k) && Migrated(c, Probe(k, n)) && !Kept(c, Probe(k, n))
  {
    hide Lawful, Updated, Inserted, Fetched, Run, TrueRun, Sealed, IsEncrypted;
    var ops := Probe(k, n);
    ProbeRun(c, k, n);
    assert Completes(Run(c, ops[..2]), ops[2]);
    if |k| == 4 {
      FourNotRead(c, k, n);
      assert Fetched(c, true, Run(c, ops).networks[1]) != Some(TrueRun(ops).networks[1]);
    } else {
      BareAfterProbe(c, k, n);
      assert !Sealed(c, Run(c, ops).networks[1], TrueRun(ops).networks[1]);
    }
  }

  lemma BareAfterProbe(c: Cipher, k: Bytes, n: Nonce)
    requires Lawful(c) && IsEncrypted(k) && |k| != 4
    ensures var v := Updated(c, true, Inserted(c, true, k, n), n);
            Fetched(c, true, v) == Some(k) && Updated(c, true, k, n) == k && !Sealed(c, k, k)
  {
    hide Encrypt, Decrypt, Sealed;
    BareAfterEdit(c, k, n, n);
    assert k != [];
    RecognisedExactly(c, k, n);
  }

  /** Every migrated run over a value keeps it under one layer and returns it on reading, if
      and only if the value is storable. */
  lemma LayeringExactly(c: Cipher, k: Bytes)
    requires Lawful(c)
    ensures Storable(k) <==> forall ops :: OnlyKey(ops, k) && Migrated(c, ops) ==> Kept(c, ops)
  {
    hide Lawful, Storable, OnlyKey, Migrated, Kept;
    if Storable(k) {
      forall ops | OnlyKey(ops, k) && Migrated(c, ops)
        ensures Kept(c, ops)
      {
        StorableKept(c, k, ops);
      }
    } else {
      var n: Nonce := [0, 0, 0, 0, 0, 0, 0, 0, 0, 0, 0, 0];
      ProbeFails(c, k, n);
    }
  }
}
