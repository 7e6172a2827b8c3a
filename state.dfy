/**
 * `UserRecord` and `GlobalState` of `src/state.rs` as classes. A record's
 * nonce and timestamp are updated in place (the source shares each record
 * through an `Arc` and guards the two fields with locks); its name and key
 * never change. The registry owns a map from names to records. Each method is
 * proved to compute the function of the same name in module Registry, on the
 * value `Table()` that the map and its records denote.
 *
 * The source runs these methods from several threads under a read-write lock;
 * this model is sequential. In the source `add_user` tests `check` and then
 * inserts under a second lock, so two registrations of one name can both
 * succeed there; a sequential model cannot exhibit that interleaving.
 */
module State {
  import opened Wrappers
  import opened Sodium
  import Registry

  class UserRecord {
    var time: nat
    const pubkey: PublicKey
    var nonce: Nonce
    const name: string

    constructor (name: string, pubkey: PublicKey, nonce: Nonce, time: nat)
      ensures Snapshot() == Registry.Record(name, pubkey, nonce, time)
    {
      this.time := time;
      this.pubkey := pubkey;
      this.nonce := nonce;
      this.name := name;
    }

    /** The record's current value. */
    function Snapshot(): Registry.Record
      reads this
    {
      Registry.Record(name, pubkey, nonce, time)
    }

    /** `UserRecord::update`: store a fresh nonce and the current time, and return the
        nonce in base64. */
    method Update(newNonce: Nonce, now: nat, p: Primitives) returns (encoded: string)
      modifies this
      ensures Snapshot() == Registry.Touch(old(Snapshot()), newNonce, now)
      ensures encoded == p.b64Encode(newNonce)
    {
      time := now;
      nonce := newNonce;
      encoded := p.b64Encode(nonce);
    }

    /** `From<&UserRecord> for UserJson`. */
    function ToJson(p: Primitives): (j: Registry.UserJson)
      reads this
      ensures j == Registry.ToJson(Snapshot(), p)
      ensures j.name == name && j.lastActive == time
    {
      Registry.UserJson(time, p.b64Encode(pubkey), name)
    }
  }

  class GlobalState {
    var data: map<string, UserRecord>
    const publicKey: PublicKey
    const secretKey: SecretKey

    /** Every record is stored under its own name (so no record is stored twice). */
    ghost predicate Valid()
      reads this
    {
      forall k :: k in data ==> data[k].name == k
    }

    /** The registry's value: the snapshot of every record, by name. */
    ghost function Table(): (t: Registry.Table)
      reads this, data.Values
      ensures t.Keys == data.Keys
      ensures Valid() ==> Registry.Keyed(t)
    {
      map k | k in data :: data[k].Snapshot()
    }

    /** `GlobalState::new` without its reaper thread; `gen_keypair` supplies the keys. */
    constructor (publicKey: PublicKey, secretKey: SecretKey)
      ensures Valid() && Table() == map[]
      ensures this.publicKey == publicKey && this.secretKey == secretKey
    {
      data := map[];
      this.publicKey := publicKey;
      this.secretKey := secretKey;
    }

    /** `GlobalState::update`: rotate the named record's nonce, or report that there is none. */
    method Update(name: string, newNonce: Nonce, now: nat, p: Primitives) returns (r: Option<string>)
      requires Valid()
      modifies data.Values
      ensures Valid() && data == old(data)
      ensures (r, Table()) == Registry.Rotate(old(Table()), p, name, newNonce, now)
      ensures r.None? <==> !old(Check(name))
      ensures r.None? ==> Table() == old(Table())
      ensures r.Some? ==> r.value == p.b64Encode(newNonce)
    {
      if name in data {
        var user := data[name];
        ghost var before := Table();
        var encoded := user.Update(newNonce, now, p);
        r := Some(encoded);
        forall k | k in data && k != name
          ensures data[k].Snapshot() == before[k]
        {
          assert data[k].name == k;
        }
        assert Table() == before[name := Registry.Touch(before[name], newNonce, now)];
      } else {
        r := None;
      }
    }

    /** `check`: whether a record has this name. */
    function Check(name: string): (r: bool)
      reads this, data.Values
      ensures r <==> name in Table()
    {
      name in data
    }

    /** `get_list`: the view of every record. The source collects a `Vec` in whatever order
        its parallel iteration yields; the model keeps the views as a set. */
    function GetList(p: Primitives): (r: set<Registry.UserJson>)
      reads this, data.Values
      requires Valid()
      ensures r == Registry.Views(Table(), p)
      ensures |r| == |data|
      ensures forall k :: k in data ==> data[k].ToJson(p) in r
      ensures forall v :: v in r ==> v.name in data && v == data[v.name].ToJson(p)
    {
      Registry.ViewsMembers(Table(), p);
      Registry.ViewsCount(Table(), p);
      set k | k in data :: data[k].ToJson(p)
    }

    /** `clean_up`: collect the names of the records idle for longer than the window, then
        remove them one at a time. */
    method CleanUp(now: nat)
      requires Valid()
      modifies this
      ensures Valid()
      ensures Table() == Registry.Evict(old(Table()), now)
      ensures forall k :: k in Table() <==> k in old(Table()) && !Registry.IsIdle(old(Table())[k], now)
      ensures forall k :: k in Table() ==> Table()[k] == old(Table())[k]
    {
      ghost var t := Table();
      var todo := set r | r in data.Values && r.time + Registry.IdleWindow < now :: r.name;
      assert todo == Registry.IdleNames(t, now) by {
        forall n | n in todo ensures n in Registry.IdleNames(t, now) {
          var r :| r in data.Values && r.time + Registry.IdleWindow < now && n == r.name;
          var k :| k in data && data[k] == r;
        }
      }
      ghost var collected := todo;
      while todo != {}
        invariant Valid()
        invariant todo <= collected
        invariant data == old(data) - (collected - todo)
        decreases todo
      {
        var n :| n in todo;
        data := data - {n};
        todo := todo - {n};
      }
      assert Table() == Registry.Evict(t, now);
      Registry.EvictExact(t, now);
    }

    /** `add_user`: validate the key, refuse a taken name, else register a new record with
        the fresh nonce at the current time and return that nonce in base64. */
    method AddUser(name: string, key: string, newNonce: Nonce, now: nat, p: Primitives)
      returns (r: Result<string, string>)
      requires Valid()
      modifies this
      ensures Valid()
      ensures (r, Table()) == Registry.Register(old(Table()), p, name, key, newNonce, now)
      ensures r.Ok? <==> Registry.ParseKey(p, key).Ok? && !old(Check(name))
      ensures Registry.ParseKey(p, key).Ok? && old(Check(name)) ==> r == Err(Registry.NameTaken)
      ensures r.Err? ==> data == old(data) && Table() == old(Table())
      ensures r.Ok? ==> name in data && fresh(data[name]) && r.value == p.b64Encode(newNonce)
    {
      match Registry.ParseKey(p, key)
      case Err(e) =>
        r := Err(e);
      case Ok(k) =>
        if Check(name) {
          r := Err(Registry.NameTaken);
        } else {
          ghost var before := Table();
          var user := new UserRecord(name, k, newNonce, now);
          data := data[name := user];
          r := Ok(p.b64Encode(newNonce));
          assert Table() == before[name := Registry.Record(name, k, newNonce, now)];
        }
    }

    /** `decode`: open the message under the named record's current nonce; only when that
        yields UTF-8 text, rotate the nonce and return the text with the new nonce. */
    method Decode(name: string, msg: string, newNonce: Nonce, now: nat, p: Primitives)
      returns (text: Option<string>, nonce: Option<string>)
      requires Valid()
      modifies data.Values
      ensures Valid() && data == old(data)
      ensures ((text, nonce), Table()) == Registry.Decode(old(Table()), p, secretKey, name, msg, newNonce, now)
      ensures text.None? ==> nonce.None? && Table() == old(Table())
      ensures text.Some? ==> nonce == Some(p.b64Encode(newNonce))
    {
      var decoded: Option<string> := None;
      if name in data {
        var user := data[name];
        match p.open(p.asBytes(msg), user.nonce, user.pubkey, secretKey)
        case Some(plain) =>
          decoded := p.fromUtf8(plain);
        case None =>
          decoded := None;
      }
      if decoded.Some? {
        nonce := Update(name, newNonce, now, p);
      } else {
        nonce := None;
      }
      text := decoded;
    }
  }
}
