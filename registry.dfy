/**
 * The registry of `src/state.rs` as a value: a finite map from a user's name
 * to a snapshot of that user's record. Each operation of `GlobalState` is a
 * function from the old map to its result and the new map; the class model in
 * state.dfy is proved to compute exactly these functions, and the lemmas here
 * state what the operations promise.
 */
module Registry {
  import opened Wrappers
  import opened Sodium

  /** `Duration::from_secs(60 * 15)`: how long a record may stay idle, in seconds. */
  const IdleWindow: nat := 60 * 15

  /** The error `add_user` reports for a name already registered (spelled as in the source). */
  const NameTaken: string := "name exsits"

  /** The error `add_user` reports when the decoded key is not a public key. */
  const KeyRejected: string := "cannot convert key"

  /** One `UserRecord`: its name, the client's public key, the nonce last issued and
      the instant (in seconds) it was last active. */
  datatype Record = Record(name: string, pubkey: PublicKey, nonce: Nonce, time: nat)

  /** `UserJson`, the public view of a record that the listing returns. */
  datatype UserJson = UserJson(lastActive: nat, pubkey: string, name: string)

  type Table = map<string, Record>

  /** What `decode` returns: the plaintext, then the base64 of the newly issued nonce. */
  type DecodePair = (Option<string>, Option<string>)

  /** The key invariant: every record is stored under its own name. */
  ghost predicate Keyed(t: Table) {
    forall k :: k in t ==> t[k].name == k
  }

  /** The reaper's test: the record has been idle for longer than the window. */
  predicate IsIdle(r: Record, now: nat) {
    r.time + IdleWindow < now
  }

  /** `UserRecord::update`: a fresh nonce and a refreshed timestamp. */
  function Touch(r: Record, newNonce: Nonce, now: nat): Record {
    r.(nonce := newNonce, time := now)
  }

  /** The key half of `add_user`: base64-decode the text, then read it as a public key. */
  function ParseKey(p: Primitives, key: string): Result<PublicKey, string> {
    match p.b64Decode(key)
    case Err(e) => Err(e)
    case Ok(bytes) =>
      match p.keyFromSlice(bytes)
      case None => Err(KeyRejected)
      case Some(k) => Ok(k)
  }

  /** `add_user`: validate the key, refuse a taken name, else insert a new record. */
  function Register(t: Table, p: Primitives, name: string, key: string, newNonce: Nonce, now: nat)
    : (Result<string, string>, Table)
  {
    match ParseKey(p, key)
    case Err(e) => (Err(e), t)
    case Ok(k) =>
      if name in t then (Err(NameTaken), t)
      else (Ok(p.b64Encode(newNonce)), t[name := Record(name, k, newNonce, now)])
  }

  /** `GlobalState::update`: rotate the named record's nonce, if there is one. */
  function Rotate(t: Table, p: Primitives, name: string, newNonce: Nonce, now: nat): (Option<string>, Table) {
    if name in t then (Some(p.b64Encode(newNonce)), t[name := Touch(t[name], newNonce, now)])
    else (None, t)
  }

  /** The names `clean_up` collects: the `name` field of every idle record. */
  function IdleNames(t: Table, now: nat): set<string> {
    set k | k in t && IsIdle(t[k], now) :: t[k].name
  }

  /** `clean_up`: remove every collected name from the map. */
  function Evict(t: Table, now: nat): Table {
    t - IdleNames(t, now)
  }

  /** The opening half of `decode`: `open` the message's raw bytes under the record's
      current nonce and key, then read the plaintext as UTF-8. */
  function Open(r: Record, p: Primitives, sk: SecretKey, msg: string): Option<string> {
    match p.open(p.asBytes(msg), r.nonce, r.pubkey, sk)
    case None => None
    case Some(plain) => p.fromUtf8(plain)
  }

  /** `decode`: open the message, and rotate the nonce only when that succeeded. */
  function Decode(t: Table, p: Primitives, sk: SecretKey, name: string, msg: string, newNonce: Nonce, now: nat)
    : (DecodePair, Table)
  {
    var decoded := if name in t then Open(t[name], p, sk, msg) else None;
    if decoded.Some? then
      var (nonce, t') := Rotate(t, p, name, newNonce, now);
      ((decoded, nonce), t')
    else ((None, None), t)
  }

  /** `From<&UserRecord> for UserJson`. */
  function ToJson(r: Record, p: Primitives): UserJson {
    UserJson(r.time, p.b64Encode(r.pubkey), r.name)
  }

  /** `get_list`: the view of every record; the source collects them in no fixed order. */
  function Views(t: Table, p: Primitives): set<UserJson> {
    set k | k in t :: ToJson(t[k], p)
  }

  // ---------------------------------------------------------------- add_user

  /** When registration succeeds, and what the table is afterwards. */
  lemma RegisterOutcome(t: Table, p: Primitives, name: string, key: string, newNonce: Nonce, now: nat)
    ensures var (r, t') := Register(t, p, name, key, newNonce, now);
      && (r.Ok? <==> ParseKey(p, key).Ok? && name !in t)
      && (ParseKey(p, key).Err? ==> r == Err(ParseKey(p, key).error) && t' == t)
      && (ParseKey(p, key).Ok? && name in t ==> r == Err(NameTaken) && t' == t)
      && (r.Ok? ==>
            && r.value == p.b64Encode(newNonce)
            && t'.Keys == t.Keys + {name}
            && t'[name] == Record(name, ParseKey(p, key).value, newNonce, now)
            && (forall k :: k in t ==> t'[k] == t[k]))
  {
  }

  /** A key that is not valid base64, or whose bytes are not a public key, is refused
      with the corresponding error whether or not the name is taken. */
  lemma InvalidKeyRejected(t: Table, p: Primitives, name: string, key: string, newNonce: Nonce, now: nat)
    requires p.b64Decode(key).Err? || p.keyFromSlice(p.b64Decode(key).value).None?
    ensures var (r, t') := Register(t, p, name, key, newNonce, now);
      && t' == t
      && (p.b64Decode(key).Err? ==> r == Err(p.b64Decode(key).error))
      && (p.b64Decode(key).Ok? ==> r == Err(KeyRejected))
  {
  }

  lemma RegisterKeepsKeyed(t: Table, p: Primitives, name: string, key: string, newNonce: Nonce, now: nat)
    requires Keyed(t)
    ensures Keyed(Register(t, p, name, key, newNonce, now).1)
  {
  }

  // ------------------------------------------------------------------ update

  /** Rotation touches only the nonce and time of the named record. */
  lemma RotateOutcome(t: Table, p: Primitives, name: string, newNonce: Nonce, now: nat)
    ensures var (r, t') := Rotate(t, p, name, newNonce, now);
      && (name !in t ==> r == None && t' == t)
      && (name in t ==>
            && r == Some(p.b64Encode(newNonce))
            && t'.Keys == t.Keys
            && t'[name].name == t[name].name
            && t'[name].pubkey == t[name].pubkey
            && t'[name].nonce == newNonce
            && t'[name].time == now
            && (forall k :: k in t && k != name ==> t'[k] == t[k]))
  {
  }

  lemma RotateKeepsKeyed(t: Table, p: Primitives, name: string, newNonce: Nonce, now: nat)
    requires Keyed(t)
    ensures Keyed(Rotate(t, p, name, newNonce, now).1)
  {
  }

  // ---------------------------------------------------------------- clean_up

  /** Under the key invariant, eviction removes exactly the idle records and keeps
      every other record as it was. */
  lemma EvictExact(t: Table, now: nat)
    requires Keyed(t)
    ensures forall k :: k in Evict(t, now) <==> k in t && !IsIdle(t[k], now)
    ensures forall k :: k in Evict(t, now) ==> Evict(t, now)[k] == t[k]
    ensures Keyed(Evict(t, now))
  {
  }

  /** A second eviction at the same instant removes nothing. */
  lemma EvictIdempotent(t: Table, now: nat)
    requires Keyed(t)
    ensures Evict(Evict(t, now), now) == Evict(t, now)
  {
  }

  /** No record that survives an eviction is idle at that instant. */
  lemma EvictLeavesNoIdle(t: Table, now: nat)
    requires Keyed(t)
    ensures forall k :: k in Evict(t, now) ==> !IsIdle(Evict(t, now)[k], now)
  {
  }

  // ------------------------------------------------------------------ decode

  /** A decode that fails, for an unknown name, a failed `open`, or a plaintext that is not
      UTF-8, reports nothing and leaves the table, and so the nonce, alone; one that succeeds
      used the record's current nonce and has the effect of `Rotate`. */
  lemma DecodeOutcome(t: Table, p: Primitives, sk: SecretKey, name: string, msg: string, newNonce: Nonce, now: nat)
    ensures var ((text, nonce), t') := Decode(t, p, sk, name, msg, newNonce, now);
      && (name !in t ==> text == None && nonce == None && t' == t)
      && (name in t && p.open(p.asBytes(msg), t[name].nonce, t[name].pubkey, sk).None? ==>
            text == None && nonce == None && t' == t)
      && (name in t && p.open(p.asBytes(msg), t[name].nonce, t[name].pubkey, sk).Some? &&
          p.fromUtf8(p.open(p.asBytes(msg), t[name].nonce, t[name].pubkey, sk).value).None? ==>
            text == None && nonce == None && t' == t)
      && (text.Some? <==> name in t && Open(t[name], p, sk, msg).Some?)
      && (text.Some? ==>
            && text == Open(t[name], p, sk, msg)
            && (nonce, t') == Rotate(t, p, name, newNonce, now)
            && nonce == Some(p.b64Encode(newNonce)))
  {
  }

  lemma DecodeKeepsKeyed(t: Table, p: Primitives, sk: SecretKey, name: string, msg: string, newNonce: Nonce, now: nat)
    requires Keyed(t)
    ensures Keyed(Decode(t, p, sk, name, msg, newNonce, now).1)
  {
  }

  // ---------------------------------------------------------------- get_list

  /** Each record has its view in the listing, and each view in the listing is the
      view of the record stored under the view's name. */
  lemma ViewsMembers(t: Table, p: Primitives)
    requires Keyed(t)
    ensures forall k :: k in t ==> ToJson(t[k], p) in Views(t, p)
    ensures forall v :: v in Views(t, p) ==>
      v.name in t && v == ToJson(t[v.name], p) && v.lastActive == t[v.name].time
  {
  }

  /** Under the key invariant the listing holds one view per record: no two records
      share a view, so there are exactly as many views as records. */
  lemma {:induction false} ViewsCount(t: Table, p: Primitives)
    requires Keyed(t)
    ensures |Views(t, p)| == |t|
    decreases |t|
  {
    if t == map[] {
      assert Views(t, p) == {};
    } else {
      var k :| k in t;
      var rest := t - {k};
      assert rest.Keys == t.Keys - {k};
      assert Keyed(rest);
      ViewsCount(rest, p);
      var v := ToJson(t[k], p);
      assert Views(t, p) == Views(rest, p) + {v} by {
        forall w | w in Views(t, p) ensures w in Views(rest, p) + {v} {
          var j :| j in t && w == ToJson(t[j], p);
          if j != k { assert j in rest; }
        }
      }
      assert v !in Views(rest, p);
    }
  }
}
