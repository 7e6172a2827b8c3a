# Credential registry of new_chat, modelled in Dafny

The server keeps an in-memory registry, `GlobalState` in `src/state.rs`, that
ties each client name to its public key and to a single-use nonce. A client
registers with `add_user` and gets a base64 nonce back. It proves that it holds
the matching secret key by sending a message that `decode` can open under that
nonce; every successful decode issues a fresh nonce. A reaper evicts records
that have been idle for more than 15 minutes.

The project models that registry:

- `wrappers.dfy`: `Option` and `Result`.
- `sodium.dfy`: the byte types (32-byte keys, 24-byte nonces). It also has
  `Primitives`, a record of the foreign functions the registry calls:
  `base64::encode`/`decode`, `PublicKey::from_slice`, `box_::open`,
  `String::as_bytes` and `String::from_utf8`. Every operation takes it as a
  parameter, so these functions stay uninterpreted.
- `registry.dfy` (module `Registry`): the registry as a value, a map from name
  to `Record`. Each operation is a function from the old map to its result and
  the new map. The lemmas say when a registration succeeds, what a rotation
  changes, which records an eviction removes, and that a failed decode keeps
  the nonce.
- `state.dfy` (module `State`): classes `UserRecord` and `GlobalState`. A
  record's `nonce` and `time` are fields updated in place; `name` and `pubkey`
  are constants. The registry's `data` is a `map<string, UserRecord>` that its
  methods reassign. `Valid()` is the key invariant `data[k].name == k`. Each
  method is proved to compute the matching `Registry` function on `Table()`,
  the value that the map and its records denote.
- `trace.dfy` (module `Trace`): runs of calls. Lemmas over whole runs show:
  - the key invariant persists;
  - a name is registered at most once while nothing is evicted;
  - after any run, evictions included, the nonce stored for a name is the one
    issued last for it;
  - while nothing is evicted and the clock does not go back, a record keeps
    its name and key, and its last-active time never decreases.

  Two handshakes are worked through. In the first, "alice" is registered
  twice, then one decode fails and one succeeds. In the second, "bob" is
  evicted once it has been idle for more than 900 seconds.

Time is a `nat` count of seconds passed as `now`. The idle window is
`60 * 15 = 900` seconds, and a record is idle when `time + 900 < now`
(strictly: a record exactly 900 seconds old survives). Nonces from `gen_nonce`
and keys from `gen_keypair` are parameters supplied by the caller.

Behaviour of the source that the model keeps as written:

- The collision error is the string `"name exsits"` (src/state.rs:152).
- `decode` passes the message's raw bytes (`msg.as_bytes()`) to `open`
  (src/state.rs:174). It does not base64-decode the message first.
- `add_user` tests `check` and inserts under two separate lock acquisitions
  (src/state.rs:151 and src/state.rs:162).
  So registration is not atomic with respect to the existence test. The
  sequential model cannot show that race (see "Left out").

## Model

| member | source | states |
|---|---|---|
| `State.UserRecord.constructor` | src/state.rs:156-161 | a new record holds exactly the given name, key, nonce and time |
| `State.UserRecord.Update` | src/state.rs:59-65 | the record's nonce becomes the fresh nonce and its time becomes `now`; name and key are constants; the base64 of the new nonce is returned |
| `State.UserRecord.ToJson` | src/state.rs:32-39 | the view carries the record's time as `last_active`, the base64 of its key, and its name |
| `State.GlobalState.constructor` | src/state.rs:84-91 | a new registry is empty, satisfies the key invariant and keeps the given key pair |
| `State.GlobalState.Update` | src/state.rs:113-120 | an absent name gives `None` and changes nothing; a present one gives `Some(base64(nonce))` and only that record's nonce and time change (equal to `Registry.Rotate` on the table) |
| `State.GlobalState.Check` | src/state.rs:122-125 | true exactly when the table has a record under that name |
| `State.GlobalState.GetList` | src/state.rs:127-129 | the listing is the set of all record views: one per record (its size is the number of records), each equal to the view of the record under its name |
| `State.GlobalState.CleanUp` | src/state.rs:131-145 | the collect-then-remove loop leaves exactly the records with `time + 900 >= now`, each unchanged, and keeps the key invariant |
| `State.GlobalState.AddUser` | src/state.rs:147-166 | succeeds exactly when the key parses and the name is absent; a taken name with a valid key gives `Err("name exsits")`; any error leaves the map unchanged; success returns `base64(nonce)` and adds one fresh record |
| `State.GlobalState.Decode` | src/state.rs:168-189 | a decode without text returns `(None, None)` and leaves the table unchanged; one with text returns `Some(base64(new nonce))` and has the effect of `Registry.Decode` |
| `Registry.RegisterOutcome` | src/state.rs:147-166 | `Ok` iff the key parses and the name is absent; errors leave the table alone; success adds exactly `Record(name, key, nonce, now)` and changes no other entry |
| `Registry.InvalidKeyRejected` | src/state.rs:148-149 | bad base64 returns the decoder's error and a non-key returns `"cannot convert key"`, whether or not the name is taken, with the table unchanged |
| `Registry.RegisterKeepsKeyed` | src/state.rs:156-162 | inserting under `name` a record named `name` keeps every record under its own name |
| `Registry.RotateOutcome` | src/state.rs:113-120 | an absent name gives `None` and the same table; otherwise only the named record's nonce and time change, and its name, key and every other record stay |
| `Registry.RotateKeepsKeyed` | src/state.rs:59-65 | rotation keeps the key invariant |
| `Registry.EvictExact` | src/state.rs:135-144 | under the key invariant, removing the collected names removes exactly the idle records, keeps every other record unchanged, and keeps the invariant |
| `Registry.EvictIdempotent` | src/state.rs:131-145 | a second eviction at the same instant removes nothing |
| `Registry.EvictLeavesNoIdle` | src/state.rs:137-139 | no surviving record is idle at the eviction instant |
| `Registry.DecodeOutcome` | src/state.rs:168-189 | unknown name, failed `open`, or non-UTF-8 plaintext each give `(None, None)` with the table unchanged; text comes back iff the record's current nonce opens the message, and then the effect is exactly `Rotate` |
| `Registry.DecodeKeepsKeyed` | src/state.rs:187 | decode keeps the key invariant |
| `Registry.ViewsMembers` | src/state.rs:32-39 | every record's view is listed, and every listed view is the view of the record under its name, with that record's time |
| `Registry.ViewsCount` | src/state.rs:127-129 | under the key invariant no two records share a view, so the listing has exactly one entry per record |
| `Trace.StepKeepsKeyed` | src/state.rs:131-166 | every operation keeps every record under its own name |
| `Trace.RunKeepsKeyed` | src/state.rs:131-189 | the key invariant holds after any sequence of operations |
| `Trace.StepKeepsRecord` | src/state.rs:18-23 | an operation other than eviction never removes a record, never changes its name or key, and sets its time to either the old time or `now` |
| `Trace.NameStaysTaken` | src/state.rs:151-152 | once a name is present, no later registration of it succeeds while no eviction runs |
| `Trace.AtMostOneRegistration` | src/state.rs:147-166 | without eviction, at most one registration of a name succeeds in a run, and none if it was already taken |
| `Trace.RecordPersists` | src/state.rs:59-65 | without eviction and with a clock that does not go back, a record stays with the same name and key, and its last-active time never decreases |
| `Trace.StepIssued` | src/state.rs:153-163 | a call that issues a nonce for a name stores it in that name's record; any other call leaves that name's nonce unchanged or removes the record |
| `Trace.NonceIsLastIssued` | src/state.rs:168-189 | after any run, evictions included, a present name's nonce is the one issued last for it (by a successful registration, rotation or decode); if none was issued, the record was present from the start with its nonce unchanged |
| `Trace.AliceScenario` | src/state.rs:147-189 | register, re-register (fails, with `"name exsits"` for a valid key), a message that fails to open (`(None, None)`, nonce kept), then a message sealed under the first nonce succeeds with a fresh nonce |
| `Trace.BobScenario` | src/state.rs:131-189 | a record idle past the window is gone after `clean_up`, and decoding for it gives `(None, None)` |

## Left out

- Concurrency: the `RwLock`/`Arc` discipline, the per-record locks and thread-safety are not modelled. The model is sequential, so it cannot show the race between `check` and `insert` in `add_user`. That race lets two concurrent registrations of one name both succeed.
- Reaper thread: the loop in `GlobalState::new` that calls `clean_up` every 30 seconds is not modelled. Neither is the `thread_flag` set by `Drop`. Only `clean_up` itself is modelled.
- Parallel iteration: `rayon`'s `par_values` is modelled as a sequential comprehension over the map's records.
- State.GlobalState.GetList: returns a set rather than a `Vec`. The source's order is unspecified, and `Registry.ViewsCount` shows no two records collapse into one view.
- Cryptography and encoding: `gen_keypair`, `gen_nonce`, `box_::open`, `base64` and UTF-8 handling are abstract. Keys and nonces are caller-supplied parameters and the other calls are fields of `Primitives`. So properties that depend on what `open` does are not proved. That covers replay resistance (an old ciphertext failing under the new nonce) and the round trip seal-then-open.
- Clock: `SystemTime::now` is a `nat` of seconds passed in on every call, and `Touch` sets the time to it unconditionally, as src/state.rs:62 does. So a clock going back is inside the model. Only `Trace.RecordPersists` excludes it, through its `ClockFrom` precondition. Sub-second precision and `SystemTime + Duration` overflow are not modelled.
- Panics: `unwrap`/`expect` on a poisoned lock are not modelled, and neither is a failed thread spawn.
- Decode interleaving: the source can change the map between `decode`'s read (src/state.rs:170-171) and its call to `update` (src/state.rs:187). Two cases follow:
  - If the record was evicted, `update` returns `None`, so the decode returns `(Some(m), None)`.
  - If the name was registered again, after an eviction or through the race between `check` and `insert`, `update` finds the new record. It then rotates that record's nonce and returns `Some`. So a decode that opened under the old record uses up the new registrant's nonce.

  In the sequential model a successful open is always followed by a rotation of the same record.
- `public_key()` and `secret_key()` are the constants `publicKey` and `secretKey` of `GlobalState`.
- src/router.rs (HTTP routing, JSON, always status 400) and src/main.rs (process entry) are thin adapters. They are not part of this model.
