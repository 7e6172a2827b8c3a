/**
 * Runs of the registry: a sequence of calls into `GlobalState`, each one a
 * step of the functions in module Registry, with the replies it produces.
 * The lemmas here are about whole runs: the key invariant holds throughout,
 * a name is registered at most once while nothing evicts it, the stored
 * nonce is always the one issued last, a record keeps its name and key and,
 * while the clock does not go back, its last-active time never decreases.
 * Two handshakes are worked through: "alice" registered twice, then a failed
 * and a successful decode; and "bob" evicted after the idle window.
 */
module Trace {
  import opened Wrappers
  import opened Sodium
  import opened Registry

  /** One call into the registry, with the fresh nonce and the clock reading it would use. */
  datatype Op =
    | AddUser(name: string, key: string, newNonce: Nonce, now: nat)
    | Update(name: string, newNonce: Nonce, now: nat)
    | CleanUp(now: nat)
    | Decode(name: string, msg: string, newNonce: Nonce, now: nat)

  /** What each call returns (`clean_up` returns nothing). */
  datatype Reply =
    | Added(result: Result<string, string>)
    | Updated(nonce: Option<string>)
    | Cleaned
    | Decoded(pair: DecodePair)

  function Step(t: Table, p: Primitives, sk: SecretKey, op: Op): (Reply, Table) {
    match op
    case AddUser(name, key, n, now) =>
      var (r, t') := Register(t, p, name, key, n, now); (Added(r), t')
    case Update(name, n, now) =>
      var (r, t') := Rotate(t, p, name, n, now); (Updated(r), t')
    case CleanUp(now) =>
      (Cleaned, Evict(t, now))
    case Decode(name, msg, n, now) =>
      var (r, t') := Registry.Decode(t, p, sk, name, msg, n, now); (Decoded(r), t')
  }

  /** The replies of a run, one per call, and the table it ends with. */
  function Run(t: Table, p: Primitives, sk: SecretKey, ops: seq<Op>): (r: (seq<Reply>, Table))
    ensures |r.0| == |ops|
    decreases |ops|
  {
    if ops == [] then ([], t)
    else
      var (reply, t1) := Step(t, p, sk, ops[0]);
      var (replies, t2) := Run(t1, p, sk, ops[1..]);
      ([reply] + replies, t2)
  }

  /** The call registered `name` successfully. */
  predicate RegisteredAs(op: Op, reply: Reply, name: string) {
    op.AddUser? && op.name == name && reply.Added? && reply.result.Ok?
  }

  predicate NoCleanUp(ops: seq<Op>) {
    forall i :: 0 <= i < |ops| ==> !ops[i].CleanUp?
  }

  /** The calls read a clock that starts at `start` or later and never goes back. */
  predicate ClockFrom(start: nat, ops: seq<Op>)
    decreases |ops|
  {
    ops == [] || (start <= ops[0].now && ClockFrom(ops[0].now, ops[1..]))
  }

  /** How a run's replies and calls line up with those of the run after its first step. */
  lemma RunUnfold(t: Table, p: Primitives, sk: SecretKey, ops: seq<Op>, i: nat)
    requires 0 < i < |ops|
    ensures Run(t, p, sk, ops).0[i] == Run(Step(t, p, sk, ops[0]).1, p, sk, ops[1..]).0[i - 1]
    ensures ops[i] == ops[1..][i - 1]
  {
  }

  /** Every call keeps every record under its own name. */
  lemma StepKeepsKeyed(t: Table, p: Primitives, sk: SecretKey, op: Op)
    requires Keyed(t)
    ensures Keyed(Step(t, p, sk, op).1)
  {
  }

  /** The key invariant holds after any run that starts from a table satisfying it. */
  lemma {:induction false} RunKeepsKeyed(t: Table, p: Primitives, sk: SecretKey, ops: seq<Op>)
    requires Keyed(t)
    ensures Keyed(Run(t, p, sk, ops).1)
    decreases |ops|
  {
    if ops != [] {
      StepKeepsKeyed(t, p, sk, ops[0]);
      RunKeepsKeyed(Step(t, p, sk, ops[0]).1, p, sk, ops[1..]);
    }
  }

  /** A call other than `clean_up` never removes a record, and keeps its name and key. */
  lemma StepKeepsRecord(t: Table, p: Primitives, sk: SecretKey, op: Op, name: string)
    requires name in t && !op.CleanUp?
    ensures var t' := Step(t, p, sk, op).1;
      && name in t'
      && t'[name].name == t[name].name
      && t'[name].pubkey == t[name].pubkey
      && (t'[name].time == t[name].time || t'[name].time == op.now)
  {
  }

  /** Once a name is taken, no later registration of it succeeds while nothing is evicted. */
  lemma {:induction false} NameStaysTaken(t: Table, p: Primitives, sk: SecretKey, ops: seq<Op>, name: string)
    requires name in t && NoCleanUp(ops)
    ensures name in Run(t, p, sk, ops).1
    ensures forall i :: 0 <= i < |ops| ==> !RegisteredAs(ops[i], Run(t, p, sk, ops).0[i], name)
    decreases |ops|
  {
    if ops != [] {
      var t1 := Step(t, p, sk, ops[0]).1;
      StepKeepsRecord(t, p, sk, ops[0], name);
      assert NoCleanUp(ops[1..]) by {
        forall i | 0 <= i < |ops[1..]| ensures !ops[1..][i].CleanUp? {
          assert ops[1..][i] == ops[i + 1];
        }
      }
      NameStaysTaken(t1, p, sk, ops[1..], name);
      forall i | 0 < i < |ops|
        ensures !RegisteredAs(ops[i], Run(t, p, sk, ops).0[i], name)
      {
        RunUnfold(t, p, sk, ops, i);
      }
    }
  }

  /** Without eviction, at most one registration of a name succeeds in a run, and none
      does if the name was taken when the run began. */
  lemma {:induction false} AtMostOneRegistration(t: Table, p: Primitives, sk: SecretKey, ops: seq<Op>, name: string)
    requires NoCleanUp(ops)
    ensures name in t ==> forall i :: 0 <= i < |ops| ==> !RegisteredAs(ops[i], Run(t, p, sk, ops).0[i], name)
    ensures forall i, j :: 0 <= i < j < |ops| && RegisteredAs(ops[i], Run(t, p, sk, ops).0[i], name) ==>
      !RegisteredAs(ops[j], Run(t, p, sk, ops).0[j], name)
    decreases |ops|
  {
    if name in t {
      NameStaysTaken(t, p, sk, ops, name);
    } else if ops != [] {
      var (r0, t1) := Step(t, p, sk, ops[0]);
      var replies := Run(t, p, sk, ops).0;
      assert NoCleanUp(ops[1..]) by {
        forall i | 0 <= i < |ops[1..]| ensures !ops[1..][i].CleanUp? {
          assert ops[1..][i] == ops[i + 1];
        }
      }
      AtMostOneRegistration(t1, p, sk, ops[1..], name);
      if RegisteredAs(ops[0], replies[0], name) {
        NameStaysTaken(t1, p, sk, ops[1..], name);
      }
      forall i, j | 0 <= i < j < |ops| && RegisteredAs(ops[i], replies[i], name)
        ensures !RegisteredAs(ops[j], replies[j], name)
      {
        RunUnfold(t, p, sk, ops, j);
        if i > 0 {
          RunUnfold(t, p, sk, ops, i);
        }
      }
    }
  }

  /** While nothing is evicted and the clock does not go back, a registered record stays,
      keeps its name and key, and its last-active time never decreases. */
  lemma {:induction false} RecordPersists(t: Table, p: Primitives, sk: SecretKey, ops: seq<Op>, name: string)
    requires name in t && NoCleanUp(ops) && ClockFrom(t[name].time, ops)
    ensures var t' := Run(t, p, sk, ops).1;
      && name in t'
      && t'[name].name == t[name].name
      && t'[name].pubkey == t[name].pubkey
      && t'[name].time >= t[name].time
    decreases |ops|
  {
    if ops != [] {
      var t1 := Step(t, p, sk, ops[0]).1;
      StepKeepsRecord(t, p, sk, ops[0], name);
      assert NoCleanUp(ops[1..]) by {
        forall i | 0 <= i < |ops[1..]| ensures !ops[1..][i].CleanUp? {
          assert ops[1..][i] == ops[i + 1];
        }
      }
      ClockWeaken(ops[0].now, t1[name].time, ops[1..]);
      RecordPersists(t1, p, sk, ops[1..], name);
    }
  }

  lemma ClockWeaken(start: nat, earlier: nat, ops: seq<Op>)
    requires ClockFrom(start, ops) && earlier <= start
    ensures ClockFrom(earlier, ops)
  {
  }

  /** The nonce `op` issued for `name`, judging by its reply: a registration that succeeded,
      a rotation that found the record, or a decode that returned a new nonce. */
  function Issued(op: Op, reply: Reply, name: string): Option<Nonce> {
    match op
    case AddUser(n, _, nonce, _) =>
      if n == name && reply.Added? && reply.result.Ok? then Some(nonce) else None
    case Update(n, nonce, _) =>
      if n == name && reply.Updated? && reply.nonce.Some? then Some(nonce) else None
    case CleanUp(_) => None
    case Decode(n, _, nonce, _) =>
      if n == name && reply.Decoded? && reply.pair.1.Some? then Some(nonce) else None
  }

  /** A call that issues a nonce for `name` stores it; any other call leaves that name's
      nonce as it was, or removes the record. */
  lemma StepIssued(t: Table, p: Primitives, sk: SecretKey, op: Op, name: string)
    ensures var (r, t') := Step(t, p, sk, op);
      && (Issued(op, r, name).Some? ==> name in t' && t'[name].nonce == Issued(op, r, name).value)
      && (Issued(op, r, name).None? && name in t' ==> name in t && t'[name].nonce == t[name].nonce)
  {
  }

  /** After any run, including evictions, the nonce stored for a name is the one issued last
      for it in the run; when the run issued none, the record was there from the start and
      its nonce is the one it began with. */
  lemma {:induction false} NonceIsLastIssued(t: Table, p: Primitives, sk: SecretKey, ops: seq<Op>, name: string)
    ensures var (replies, t') := Run(t, p, sk, ops);
      name in t' ==>
        && (forall i ::
              (0 <= i < |ops| && Issued(ops[i], replies[i], name).Some? &&
               (forall j :: i < j < |ops| ==> Issued(ops[j], replies[j], name).None?))
              ==> t'[name].nonce == Issued(ops[i], replies[i], name).value)
        && ((forall i :: 0 <= i < |ops| ==> Issued(ops[i], replies[i], name).None?) ==>
              name in t && t'[name].nonce == t[name].nonce)
    decreases |ops|
  {
    if ops != [] {
      var (r0, t1) := Step(t, p, sk, ops[0]);
      var (replies, t') := Run(t, p, sk, ops);
      var rest := Run(t1, p, sk, ops[1..]).0;
      assert t' == Run(t1, p, sk, ops[1..]).1;
      assert replies[0] == r0;
      StepIssued(t, p, sk, ops[0], name);
      NonceIsLastIssued(t1, p, sk, ops[1..], name);
      if name in t' {
        forall i | 1 <= i < |ops|
          ensures Issued(ops[i], replies[i], name) == Issued(ops[1..][i - 1], rest[i - 1], name)
        {
          RunUnfold(t, p, sk, ops, i);
        }
        if forall j :: 0 < j < |ops| ==> Issued(ops[j], replies[j], name).None? {
          assert forall j :: 0 <= j < |ops[1..]| ==> Issued(ops[1..][j], rest[j], name).None? by {
            forall j | 0 <= j < |ops[1..]| ensures Issued(ops[1..][j], rest[j], name).None? {
              assert Issued(ops[j + 1], replies[j + 1], name) == Issued(ops[1..][j], rest[j], name);
            }
          }
        }
        forall i | 0 <= i < |ops| && Issued(ops[i], replies[i], name).Some? &&
            (forall j :: i < j < |ops| ==> Issued(ops[j], replies[j], name).None?)
          ensures t'[name].nonce == Issued(ops[i], replies[i], name).value
        {
          if i > 0 {
            assert forall j :: i - 1 < j < |ops[1..]| ==> Issued(ops[1..][j], rest[j], name).None? by {
              forall j | i - 1 < j < |ops[1..]| ensures Issued(ops[1..][j], rest[j], name).None? {
                assert Issued(ops[j + 1], replies[j + 1], name) == Issued(ops[1..][j], rest[j], name);
              }
            }
          }
        }
      }
    }
  }

  /** A run that begins with `op`: that call's reply, then the rest of the run after it. */
  lemma RunCons(t: Table, p: Primitives, sk: SecretKey, op: Op, rest: seq<Op>)
    ensures Run(t, p, sk, [op] + rest).0 == [Step(t, p, sk, op).0] + Run(Step(t, p, sk, op).1, p, sk, rest).0
    ensures Run(t, p, sk, [op] + rest).1 == Run(Step(t, p, sk, op).1, p, sk, rest).1
  {
  }

  /** Register "alice"; a second registration fails; a message that does not open is refused
      and keeps the nonce; a message sealed under the first nonce then still succeeds and
      returns its text with the fresh nonce. */
  lemma AliceScenario(t: Table, p: Primitives, sk: SecretKey, key: string, otherKey: string,
                      n0: Nonce, n1: Nonce, n2: Nonce, garbage: string, sealed: string, plain: Bytes, m: string)
    requires "alice" !in t && ParseKey(p, key).Ok?
    requires p.open(p.asBytes(garbage), n0, ParseKey(p, key).value, sk).None?
    requires p.open(p.asBytes(sealed), n0, ParseKey(p, key).value, sk) == Some(plain)
    requires p.fromUtf8(plain) == Some(m)
    ensures var ops := [AddUser("alice", key, n0, 0), AddUser("alice", otherKey, n1, 1),
                        Decode("alice", garbage, n1, 2), Decode("alice", sealed, n2, 3)];
      var replies := Run(t, p, sk, ops).0;
      && replies[0] == Added(Ok(p.b64Encode(n0)))
      && replies[1].Added? && replies[1].result.Err?
      && (ParseKey(p, otherKey).Ok? ==> replies[1] == Added(Err(NameTaken)))
      && replies[2] == Decoded((None, None))
      && replies[3] == Decoded((Some(m), Some(p.b64Encode(n2))))
  {
    var a0, a1 := AddUser("alice", key, n0, 0), AddUser("alice", otherKey, n1, 1);
    var d2, d3 := Decode("alice", garbage, n1, 2), Decode("alice", sealed, n2, 3);
    var t1 := Step(t, p, sk, a0).1;
    var t2 := Step(t1, p, sk, a1).1;
    var t3 := Step(t2, p, sk, d2).1;
    assert t1["alice"].nonce == n0;
    assert t3 == t2 == t1;
    RunCons(t, p, sk, a0, [a1, d2, d3]);
    RunCons(t1, p, sk, a1, [d2, d3]);
    RunCons(t2, p, sk, d2, [d3]);
    RunCons(t3, p, sk, d3, []);
    assert [a0, a1, d2, d3] == [a0] + [a1, d2, d3];
    assert [a1, d2, d3] == [a1] + [d2, d3];
    assert [d2, d3] == [d2] + [d3];
    assert [d3] == [d3] + [];
  }

  /** Register "bob", let the idle window pass, run the reaper: "bob" is gone and decoding
      for "bob" reports nothing. */
  lemma BobScenario(t: Table, p: Primitives, sk: SecretKey, key: string, n0: Nonce, n1: Nonce,
                    msg: string, registered: nat)
    requires Keyed(t) && "bob" !in t && ParseKey(p, key).Ok?
    ensures var ops := [AddUser("bob", key, n0, registered), CleanUp(registered + IdleWindow + 1),
                        Decode("bob", msg, n1, registered + IdleWindow + 2)];
      var (replies, t') := Run(t, p, sk, ops);
      && replies[0] == Added(Ok(p.b64Encode(n0)))
      && replies[2] == Decoded((None, None))
      && "bob" !in t'
  {
    var a0 := AddUser("bob", key, n0, registered);
    var c1 := CleanUp(registered + IdleWindow + 1);
    var d2 := Decode("bob", msg, n1, registered + IdleWindow + 2);
    var t1 := Step(t, p, sk, a0).1;
    var t2 := Step(t1, p, sk, c1).1;
    RegisterKeepsKeyed(t, p, "bob", key, n0, registered);
    EvictExact(t1, registered + IdleWindow + 1);
    assert "bob" !in t2;
    RunCons(t, p, sk, a0, [c1, d2]);
    RunCons(t1, p, sk, c1, [d2]);
    RunCons(t2, p, sk, d2, []);
    assert [a0, c1, d2] == [a0] + [c1, d2];
    assert [c1, d2] == [c1] + [d2];
    assert [d2] == [d2] + [];
  }
}
