/**
 The two backends give the same semantics (src/backends/mod.rs): they answer the same operations alike.

 They do not hold the same registry: redb clamps an expiry before the epoch to the epoch, and keeps
 permissions under keys that wrap the length of the resource id. `Agree` says exactly which operations
 tell them apart.
 */
module Backends {
  import opened Types
  import opened RegistrySpec
  import opened Eviction
  import opened Store
  import opened Clamping
  import opened Associations
  import opened RedbCodec
  import opened RedbTables
  import opened RedbInvariant
  import opened Migrations
  import opened MigrationMeaning
  import M = Memory
  import R = Redb
  import D = Database

  // ---------------------------------------------------------------- where the backends agree

  /** The operation writes or removes no permission row that serves another resource too. */
  ghost predicate KeysApart(s: Registry, op: Operation) {
    match op
    case AddRingOp(resource, ring, permissions) =>
      AddRing(s, resource, ring, Elements(permissions)).1.Ok? ==>
        MayAssociate(s.resources, resource, ring, Elements(permissions))
    case RemoveRingsOp(resource) => MayDissociate(s.resources, resource)
    case _ => true
  }

  /** What decides whether the backends stay together over an operation. */
  ghost predicate Agree(s: Registry, op: Operation) {
    ClampHidden(s, op) && KeysApart(s, op)
  }

  ghost predicate AgreeThroughout(s: Registry, ops: seq<Operation>) {
    forall i :: 0 <= i < |ops| ==> Agree(Run(s, ops[..i]).0, ops[i])
  }

  predicate ShortId(op: Operation) {
    op.AddRingOp? ==> |op.resource| <= MAX_ID
  }

  ghost predicate ShortIds(s: Registry) {
    forall r :: r in s.resources ==> |r| <= MAX_ID
  }

  lemma {:induction false} ShortIdsStay(s: Registry, ops: seq<Operation>)
    requires ShortIds(s) && forall op :: op in ops ==> ShortId(op)
    ensures ShortIds(Run(s, ops).0)
    decreases |ops|
  {
    if ops != [] {
      assert ShortId(ops[0]);
      ShortIdsStay(Step(s, ops[0]).0, ops[1..]);
    }
  }

  lemma ShortIdsAreApart(s: Registry, op: Operation)
    requires ShortIds(s) && ShortId(op)
    ensures KeysApart(s, op)
  {
    match op
    case AddRingOp(resource, _, _) => ShortIdsShareNoKey(s.resources, resource);
    case RemoveRingsOp(resource) =>
      if resource in s.resources {
        ShortIdsShareNoKey(s.resources, resource);
      }
    case _ =>
  }

  /** Clocks at or after the epoch and ids of at most 65535 bytes are enough for the backends to agree on any run. */
  lemma OrdinaryRunsAgree(s: Registry, ops: seq<Operation>)
    requires ShortIds(s) && forall op :: op in ops ==> ShortId(op) && ClockAtLeast(op, EPOCH)
    ensures AgreeThroughout(s, ops)
  {
    forall i | 0 <= i < |ops|
      ensures Agree(Run(s, ops[..i]).0, ops[i])
    {
      ShortIdsStay(s, ops[..i]);
      ShortIdsAreApart(Run(s, ops[..i]).0, ops[i]);
      ClampHiddenFromEpoch(Run(s, ops[..i]).0, ops[i]);
    }
  }

  // ---------------------------------------------------------------- permission lists

  /** The permission lists of the resources' associations, as callers gave them, after an operation. */
  function ListsAfter(s: Registry, lists: map<Bytes, seq<Listed>>, op: Operation): map<Bytes, seq<Listed>> {
    match op
    case AddRingOp(resource, ring, permissions) =>
      if AddRing(s, resource, ring, Elements(permissions)).1.Err? then lists
      else lists[resource := Associate(EntriesOf(lists, resource), ring, permissions)]
    case RemoveRingsOp(resource) => lists - {resource}
    case _ => lists
  }

  /** And after a run. */
  function GivenLists(s: Registry, lists: map<Bytes, seq<Listed>>, ops: seq<Operation>): map<Bytes, seq<Listed>> {
    if ops == [] then lists
    else
      var front, op := ops[..|ops| - 1], ops[|ops| - 1];
      ListsAfter(Run(s, front).0, GivenLists(s, lists, front), op)
  }

  lemma OneMoreGiven(s: Registry, lists: map<Bytes, seq<Listed>>, ops: seq<Operation>, i: nat)
    requires i < |ops|
    ensures GivenLists(s, lists, ops[..i + 1]) == ListsAfter(Run(s, ops[..i]).0, GivenLists(s, lists, ops[..i]), ops[i])
  {
    assert ops[..i + 1][..i] == ops[..i];
  }

  // ---------------------------------------------------------------- running the backends

  method ExecuteInMemory(registry: M.InMemoryRegistry, op: Operation) returns (answer: Response)
    requires registry.Valid()
    modifies registry
    ensures registry.Valid()
    ensures (registry.Abs(), answer) == Step(old(registry.Abs()), op)
    ensures registry.resourceRings == ListsAfter(old(registry.Abs()), old(registry.resourceRings), op)
  {
    match op
    case CreateRingOp(ring) =>
      var r := registry.CreateRing(ring);
      answer := Done(r);
    case AddPeerOp(ring, peer, lbl, expiresAt, now) =>
      var r := registry.AddPeerToRing(ring, peer, lbl, expiresAt, now);
      answer := Done(r);
    case RemovePeerOp(ring, peer) =>
      var r := registry.RemovePeerFromRing(ring, peer);
      answer := Done(r);
    case ListRingPeersOp(ring, now) =>
      var r := registry.ListRingPeers(ring, now);
      answer := Members(r);
    case ListRingsOp =>
      var r := registry.ListRings();
      answer := Rings(Elements(r));
    case RemoveRingsOp(resource) =>
      registry.RemoveRingFromResource(resource);
      answer := Done(Ok(()));
    case ListResourceRingsOp(resource) =>
      var r := registry.ListResourceRings(resource);
      answer := Response.Associations(AsSets(r));
    case AddRingOp(resource, ring, permissions) =>
      var r := registry.AddRingToResource(resource, ring, permissions);
      answer := Done(r);
    case HasPermissionOp(peer, resource, permission, now) =>
      var r := registry.HasPermission(peer, resource, permission, now);
      answer := Decision(r);
    case EvictOp(now) =>
      var r := registry.EvictExpired(now);
      answer := EvictedMemberships(Elements(r));
  }

  predicate IsQuery(op: Operation) {
    op.ListRingPeersOp? || op.ListRingsOp? || op.ListResourceRingsOp? || op.HasPermissionOp?
  }

  method QueryRings(registry: R.RedbRegistry, op: Operation) returns (answer: Response)
    requires Readable(registry.db.committed) && (op.ListRingPeersOp? || op.ListRingsOp?)
    ensures registry.Valid() ==> answer == Step(registry.Abs(), op).1
  {
    match op
    case ListRingPeersOp(ring, now) =>
      var r := registry.ListRingPeers(ring, now);
      answer := Members(r);
    case ListRingsOp =>
      var r := registry.ListRings();
      answer := Rings(Elements(r));
  }

  /** An error where the registry has none, an expiry row that cannot be decoded, is answered as an error. */
  method QueryResources(registry: R.RedbRegistry, op: Operation) returns (answer: Response)
    requires Readable(registry.db.committed) && (op.ListResourceRingsOp? || op.HasPermissionOp?)
    ensures registry.Valid() ==> answer == Step(registry.Abs(), op).1
  {
    match op
    case ListResourceRingsOp(resource) =>
      assert ReadableRow(registry.db.committed, resource);
      var r := registry.ListResourceRings(resource);
      answer := Response.Associations(AsSets(r));
    case HasPermissionOp(peer, resource, permission, now) =>
      var r := registry.HasPermission(peer, resource, permission, now);
      answer := if r.Ok? then Decision(r.value) else Done(Err(r.error));
  }

  method QueryRedb(registry: R.RedbRegistry, op: Operation) returns (answer: Response)
    requires Readable(registry.db.committed) && IsQuery(op)
    ensures registry.Valid() ==> answer == Step(registry.Abs(), ClampedOp(op)).1
  {
    assert ClampedOp(op) == op;
    if op.ListRingPeersOp? || op.ListRingsOp? {
      answer := QueryRings(registry, op);
    } else {
      answer := QueryResources(registry, op);
    }
  }

  lemma QueryChangesNothing(s: Registry, op: Operation)
    requires IsQuery(op)
    ensures Step(s, ClampedOp(op)).0 == s && KeysApart(s, op)
  {
  }

  predicate IsRingUpdate(op: Operation) {
    op.CreateRingOp? || op.AddPeerOp? || op.RemovePeerOp? || op.EvictOp?
  }

  method UpdateRings(registry: R.RedbRegistry, op: Operation) returns (answer: Response)
    requires IsRingUpdate(op)
    modifies registry`store, registry.db
    ensures old(Readable(registry.db.committed)) ==> Readable(registry.db.committed)
    ensures SameSchema(old(registry.db.committed), registry.db.committed)
    ensures old(registry.Valid()) ==>
              registry.Valid() && (registry.Abs(), answer) == Step(old(registry.Abs()), ClampedOp(op))
  {
    match op
    case CreateRingOp(ring) =>
      var r := registry.CreateRing(ring);
      answer := Done(r);
    case AddPeerOp(ring, peer, lbl, expiresAt, now) =>
      var r := registry.AddPeerToRing(ring, peer, lbl, expiresAt, now);
      answer := Done(r);
    case RemovePeerOp(ring, peer) =>
      var r := registry.RemovePeerFromRing(ring, peer);
      answer := Done(r);
    case EvictOp(now) =>
      var r := registry.EvictExpired(now);
      answer := if r.Ok? then EvictedMemberships(Elements(r.value)) else Done(Err(r.error));
  }

  predicate IsAssociationUpdate(op: Operation) {
    op.AddRingOp? || op.RemoveRingsOp?
  }

  method UpdateAssociations(registry: R.RedbRegistry, op: Operation) returns (answer: Response)
    requires IsAssociationUpdate(op)
    modifies registry`store, registry.db
    ensures old(Readable(registry.db.committed)) ==> Readable(registry.db.committed)
    ensures SameSchema(old(registry.db.committed), registry.db.committed)
    ensures old(registry.Valid()) ==> answer == Step(old(registry.Abs()), op).1
    ensures old(registry.Valid()) && KeysApart(old(registry.Abs()), op) ==>
              registry.Valid() && registry.Abs() == Step(old(registry.Abs()), op).0
    ensures old(registry.Valid()) && !KeysApart(old(registry.Abs()), op) ==>
              !Holds(registry.db.committed, Step(old(registry.Abs()), op).0)
  {
    match op
    case AddRingOp(resource, ring, permissions) =>
      var r := registry.AddRingToResource(resource, ring, permissions);
      answer := Done(r);
    case RemoveRingsOp(resource) =>
      registry.RemoveRingFromResource(resource);
      answer := Done(Ok(()));
  }

  method ExecuteOnRedb(registry: R.RedbRegistry, op: Operation) returns (answer: Response)
    requires Readable(registry.db.committed)
    modifies registry`store, registry.db
    ensures Readable(registry.db.committed)
    ensures SameSchema(old(registry.db.committed), registry.db.committed)
    ensures old(registry.Valid()) ==> answer == Step(old(registry.Abs()), ClampedOp(op)).1
    ensures old(registry.Valid()) && KeysApart(old(registry.Abs()), op) ==>
              registry.Valid() && registry.Abs() == Step(old(registry.Abs()), ClampedOp(op)).0
    ensures old(registry.Valid()) && !KeysApart(old(registry.Abs()), op) ==>
              !Holds(registry.db.committed, Step(old(registry.Abs()), ClampedOp(op)).0)
  {
    if IsQuery(op) {
      QueryChangesNothing(registry.Abs(), op);
      answer := QueryRedb(registry, op);
    } else if IsRingUpdate(op) {
      answer := UpdateRings(registry, op);
    } else {
      assert ClampedOp(op) == op;
      answer := UpdateAssociations(registry, op);
    }
  }

  /** The redb registry is well and holds the in-memory one, with expiries clamped. */
  ghost predicate Together(memory: M.InMemoryRegistry, redb: R.RedbRegistry)
    reads memory, redb, redb.db
  {
    redb.Valid() && redb.Abs() == Clamped(memory.Abs())
  }

  lemma ClampKeepsKeysApart(s: Registry, op: Operation)
    ensures KeysApart(Clamped(s), op) == KeysApart(s, op)
  {
    assert Clamped(s).resources == s.resources && Clamped(s).rings.Keys == s.rings.Keys;
  }

  lemma HeldRegistryIsUnique(t: Tables, st: Store, s: Registry)
    requires Rep(t, st) && Consistent(st)
    ensures Holds(t, s) <==> View(st) == s
  {
    if Holds(t, s) {
      var st' :| Consistent(st') && Rep(t, st') && View(st') == s;
      DecodedIsTheStore(t, st);
      DecodedIsTheStore(t, st');
    }
  }

  lemma AnswersAlikeIff(s: Registry, op: Operation, t: Tables, a: Response, b: Response)
    requires a == Step(s, op).1 && b == Step(Clamped(s), ClampedOp(op)).1
    requires KeysApart(s, op) ==>
               exists st :: Consistent(st) && Rep(t, st) && View(st) == Step(Clamped(s), ClampedOp(op)).0
    requires !KeysApart(s, op) ==> !Holds(t, Step(Clamped(s), ClampedOp(op)).0)
    ensures Agree(s, op) <==> a == b && Holds(t, Clamped(Step(s, op).0))
  {
    ClampStepIff(s, op);
    if KeysApart(s, op) {
      var st :| Consistent(st) && Rep(t, st) && View(st) == Step(Clamped(s), ClampedOp(op)).0;
      HeldRegistryIsUnique(t, st, Clamped(Step(s, op).0));
    } else {
      assert ClampHidden(s, op);
    }
  }

  /**
   One operation on both backends: the in-memory one follows the registry, and redb gives the same answer
   and holds the same registry, up to the clamp, exactly if the backends agree on the operation.
   */
  method StepBoth(memory: M.InMemoryRegistry, redb: R.RedbRegistry, op: Operation) returns (a: Response, b: Response)
    requires memory.Valid() && Readable(redb.db.committed)
    modifies memory, redb`store, redb.db
    ensures memory.Valid() && Readable(redb.db.committed)
    ensures SameSchema(old(redb.db.committed), redb.db.committed)
    ensures (memory.Abs(), a) == Step(old(memory.Abs()), op)
    ensures memory.resourceRings == ListsAfter(old(memory.Abs()), old(memory.resourceRings), op)
    ensures old(Together(memory, redb)) && Agree(old(memory.Abs()), op) ==> Together(memory, redb) && a == b
    ensures old(Together(memory, redb)) ==>
              (Agree(old(memory.Abs()), op) <==> a == b && Holds(redb.db.committed, Clamped(memory.Abs())))
  {
    ghost var s, together := memory.Abs(), Together(memory, redb);
    a := ExecuteInMemory(memory, op);
    b := ExecuteOnRedb(redb, op);
    if together {
      ClampKeepsKeysApart(s, op);
      ClampStepIff(s, op);
      AnswersAlikeIff(s, op, redb.db.committed, a, b);
    }
  }

  /** After operation `i`: the answers are the same, and the tables hold the registry with its expiries clamped. */
  ghost predicate InStepAt(
    s: Registry, ops: seq<Operation>, a: Response, b: Response, t: Tables, i: nat)
    requires i < |ops|
  {
    a == b && Holds(t, Clamped(Run(s, ops[..i + 1]).0))
  }

  ghost predicate InStep(
    s: Registry, ops: seq<Operation>, fromMemory: seq<Response>, fromRedb: seq<Response>, after: seq<Tables>)
    requires |fromMemory| == |fromRedb| == |after| == |ops|
  {
    forall i :: 0 <= i < |ops| ==> InStepAt(s, ops, fromMemory[i], fromRedb[i], after[i], i)
  }

  lemma InStepOnPrefix(
    s: Registry, ops: seq<Operation>, op: Operation, a: Response, b: Response, t: Tables, i: nat)
    requires i < |ops|
    ensures InStepAt(s, ops + [op], a, b, t, i) <==> InStepAt(s, ops, a, b, t, i)
  {
    assert (ops + [op])[..i + 1] == ops[..i + 1];
  }

  lemma InStepAtLast(s: Registry, ops: seq<Operation>, op: Operation, a: Response, b: Response, t: Tables)
    ensures InStepAt(s, ops + [op], a, b, t, |ops|) <==> a == b && Holds(t, Clamped(Run(s, ops + [op]).0))
  {
    assert (ops + [op])[..|ops| + 1] == ops + [op];
  }

  lemma OneMoreInStep(
    s: Registry, ops: seq<Operation>, op: Operation, fromMemory: seq<Response>, a: Response,
    fromRedb: seq<Response>, b: Response, after: seq<Tables>, t: Tables)
    requires |fromMemory| == |fromRedb| == |after| == |ops|
    ensures InStep(s, ops + [op], fromMemory + [a], fromRedb + [b], after + [t]) <==>
            InStep(s, ops, fromMemory, fromRedb, after) && InStepAt(s, ops + [op], a, b, t, |ops|)
  {
    var all, n := ops + [op], |ops|;
    var fm, fr, ts := fromMemory + [a], fromRedb + [b], after + [t];
    assert fm[n] == a && fr[n] == b && ts[n] == t;
    forall i | 0 <= i < n
      ensures InStepAt(s, all, fm[i], fr[i], ts[i], i) <==> InStepAt(s, ops, fromMemory[i], fromRedb[i], after[i], i)
    {
      InStepOnPrefix(s, ops, op, fm[i], fr[i], ts[i], i);
    }
    if InStep(s, all, fm, fr, ts) {
      forall i | 0 <= i < n
        ensures InStepAt(s, ops, fromMemory[i], fromRedb[i], after[i], i)
      {
        assert InStepAt(s, all, fm[i], fr[i], ts[i], i);
      }
    }
  }

  /** The backends agree throughout exactly if they are in step after each operation. */
  ghost predicate AgreeIffInStep(
    s: Registry, ops: seq<Operation>, fromMemory: seq<Response>, fromRedb: seq<Response>, after: seq<Tables>)
  {
    && |fromMemory| == |fromRedb| == |after| == |ops|
    && (AgreeThroughout(s, ops) <==> InStep(s, ops, fromMemory, fromRedb, after))
  }

  lemma StillAgreeIffInStep(
    s: Registry, ops: seq<Operation>, i: nat, fromMemory: seq<Response>, a: Response,
    fromRedb: seq<Response>, b: Response, after: seq<Tables>, t: Tables)
    requires i < |ops| && AgreeIffInStep(s, ops[..i], fromMemory, fromRedb, after)
    requires AgreeThroughout(s, ops[..i]) ==>
               (Agree(Run(s, ops[..i]).0, ops[i]) <==>
                a == b && Holds(t, Clamped(Step(Run(s, ops[..i]).0, ops[i]).0)))
    ensures AgreeIffInStep(s, ops[..i + 1], fromMemory + [a], fromRedb + [b], after + [t])
    ensures AgreeThroughout(s, ops[..i + 1]) <==>
            AgreeThroughout(s, ops[..i]) && Agree(Run(s, ops[..i]).0, ops[i])
  {
    RunOneMore(s, ops, i);
    assert ops[..i + 1] == ops[..i] + [ops[i]];
    OneMoreAgrees(s, ops[..i], ops[i]);
    OneMoreInStep(s, ops[..i], ops[i], fromMemory, a, fromRedb, b, after, t);
    InStepAtLast(s, ops[..i], ops[i], a, b, t);
  }

  lemma OneMoreAgrees(s: Registry, ops: seq<Operation>, op: Operation)
    ensures AgreeThroughout(s, ops + [op]) <==> AgreeThroughout(s, ops) && Agree(Run(s, ops).0, op)
  {
    var all, n := ops + [op], |ops|;
    assert all[..n] == ops && all[n] == op;
    forall i | 0 <= i < n
      ensures Agree(Run(s, all[..i]).0, all[i]) <==> Agree(Run(s, ops[..i]).0, ops[i])
    {
      assert all[..i] == ops[..i] && all[i] == ops[i];
    }
    if AgreeThroughout(s, all) {
      assert Agree(Run(s, all[..n]).0, all[n]);
      forall i | 0 <= i < n
        ensures Agree(Run(s, ops[..i]).0, ops[i])
      {
        assert Agree(Run(s, all[..i]).0, all[i]);
      }
    }
  }

  /**
   Both backends run the same operations. The in-memory one answers as the registry. Redb keeps in step, with
   the same answers (the same errors, decisions, listings in the same order, associations in the same order,
   and sets of rings and of evicted memberships) and the same registry, up to the clamp, after each operation,
   exactly if the backends agree throughout. `after` are the tables after each operation.
   */
  method RunBoth(memory: M.InMemoryRegistry, redb: R.RedbRegistry, ops: seq<Operation>)
    returns (fromMemory: seq<Response>, fromRedb: seq<Response>, ghost after: seq<Tables>)
    requires memory.Valid() && Readable(redb.db.committed)
    modifies memory, redb`store, redb.db
    ensures memory.Valid() && Readable(redb.db.committed)
    ensures SameSchema(old(redb.db.committed), redb.db.committed)
    ensures (memory.Abs(), fromMemory) == Run(old(memory.Abs()), ops)
    ensures memory.resourceRings == GivenLists(old(memory.Abs()), old(memory.resourceRings), ops)
    ensures old(Together(memory, redb)) ==> AgreeIffInStep(old(memory.Abs()), ops, fromMemory, fromRedb, after)
    ensures old(Together(memory, redb)) && AgreeThroughout(old(memory.Abs()), ops) ==>
              Together(memory, redb) && fromMemory == fromRedb
  {
    fromMemory, fromRedb, after := [], [], [];
    ghost var start, lists, together := memory.Abs(), memory.resourceRings, Together(memory, redb);
    for i := 0 to |ops|
      invariant memory.Valid() && Readable(redb.db.committed)
      invariant SameSchema(old(redb.db.committed), redb.db.committed)
      invariant (memory.Abs(), fromMemory) == Run(start, ops[..i])
      invariant memory.resourceRings == GivenLists(start, lists, ops[..i])
      invariant together ==> AgreeIffInStep(start, ops[..i], fromMemory, fromRedb, after)
      invariant together && AgreeThroughout(start, ops[..i]) ==> Together(memory, redb) && fromMemory == fromRedb
    {
      RunOneMore(start, ops, i);
      OneMoreGiven(start, lists, ops, i);
      var a, b := StepBoth(memory, redb, ops[i]);
      if together {
        StillAgreeIffInStep(start, ops, i, fromMemory, a, fromRedb, b, after, redb.db.committed);
      }
      fromMemory, fromRedb, after := fromMemory + [a], fromRedb + [b], after + [redb.db.committed];
    }
    assert ops[..|ops|] == ops;
  }

  /**
   Where the backends agreed, the two listings of a resource have the same rings with the same permission
   sets. The in-memory one lists permissions as they were given, redb each once in order: the same sequences
   exactly if every list given is increasing.
   */
  method ListBoth(memory: M.InMemoryRegistry, redb: R.RedbRegistry, resource: Bytes)
    returns (fromMemory: seq<Listed>, fromRedb: seq<Listed>)
    requires memory.Valid() && Readable(redb.db.committed)
    ensures fromMemory == EntriesOf(memory.resourceRings, resource)
    ensures InListedOrder(fromRedb)
    ensures Together(memory, redb) ==> AsSets(fromRedb) == AsSets(fromMemory)
    ensures Together(memory, redb) ==>
              (fromMemory == fromRedb <==> forall i :: 0 <= i < |fromMemory| ==> Increasing(fromMemory[i].permissions))
  {
    fromMemory := memory.ListResourceRings(resource);
    assert ReadableRow(redb.db.committed, resource);
    fromRedb := redb.ListResourceRings(resource);
    if Together(memory, redb) {
      SameListsIff(fromMemory, fromRedb);
    }
  }

  lemma RunOneMore(s: Registry, ops: seq<Operation>, i: nat)
    requires i < |ops|
    ensures ops[i] in ops
    ensures Run(s, ops[..i + 1]) ==
            (Step(Run(s, ops[..i]).0, ops[i]).0, Run(s, ops[..i]).1 + [Step(Run(s, ops[..i]).0, ops[i]).1])
  {
    RunAppend(s, ops[..i], ops[i]);
    assert ops[..i + 1] == ops[..i] + [ops[i]];
  }

  lemma {:induction false} RunAppend(s: Registry, ops: seq<Operation>, op: Operation)
    ensures var (s1, answers) := Run(s, ops);
      Run(s, ops + [op]) == (Step(s1, op).0, answers + [Step(s1, op).1])
    decreases |ops|
  {
    if ops == [] {
      var (s1, r) := Step(s, op);
      assert ops + [op] == [op] && [op][1..] == [];
      var none: seq<Response> := [];
      assert [r] + none == none + [r];
    } else {
      var (s1, r) := Step(s, ops[0]);
      RunAppend(s1, ops[1..], op);
      assert (ops + [op])[1..] == ops[1..] + [op];
      var (s2, rs) := Run(s1, ops[1..]);
      assert [r] + (rs + [Step(s2, op).1]) == ([r] + rs) + [Step(s2, op).1];
    }
  }

  lemma {:induction false} RunConcat(s: Registry, ops: seq<Operation>, more: seq<Operation>)
    ensures Run(s, ops + more) ==
            (Run(Run(s, ops).0, more).0, Run(s, ops).1 + Run(Run(s, ops).0, more).1)
    decreases |ops|
  {
    if ops == [] {
      assert ops + more == more;
      var none: seq<Response> := [];
      assert none + Run(s, more).1 == Run(s, more).1;
    } else {
      assert (ops + more)[1..] == ops[1..] + more;
      var (s1, r) := Step(s, ops[0]);
      RunConcat(s1, ops[1..], more);
      var rest, later := Run(s1, ops[1..]).1, Run(Run(s, ops).0, more).1;
      assert [r] + (rest + later) == [r] + rest + later;
    }
  }

  // ---------------------------------------------------------------- restarts

  function Flatten(runs: seq<seq<Operation>>): seq<Operation> {
    if runs == [] then [] else Flatten(runs[..|runs| - 1]) + runs[|runs| - 1]
  }

  lemma OneMoreRun(runs: seq<seq<Operation>>, i: nat)
    requires i < |runs|
    ensures Flatten(runs[..i + 1]) == Flatten(runs[..i]) + runs[i]
  {
    assert runs[..i + 1][..i] == runs[..i];
  }

  lemma {:induction false} RunsSoFar(runs: seq<seq<Operation>>, i: nat)
    requires i <= |runs|
    ensures Flatten(runs[..i]) <= Flatten(runs)
    decreases |runs| - i
  {
    if i < |runs| {
      OneMoreRun(runs, i);
      RunsSoFar(runs, i + 1);
    } else {
      assert runs[..i] == runs;
    }
  }

  lemma AgreeOnNextRun(s: Registry, ops: seq<Operation>, next: seq<Operation>, all: seq<Operation>)
    requires AgreeThroughout(s, all) && ops + next <= all
    ensures AgreeThroughout(Run(s, ops).0, next)
  {
    forall i | 0 <= i < |next|
      ensures Agree(Run(Run(s, ops).0, next[..i]).0, next[i])
    {
      var j := |ops| + i;
      assert Agree(Run(s, all[..j]).0, all[j]);
      assert all[..j] == ops + next[..i] && all[j] == next[i];
      RunConcat(s, ops, next[..i]);
    }
  }

  /** A database that `open` leaves as it is, and whose ring names can be listed. */
  ghost predicate Settled(t: Tables) {
    IsBootstrapped(t) && ReadVersion(t) >= CURRENT_VERSION && Readable(t)
  }

  lemma HeldSettledOpens(t: Tables, s: Registry)
    requires Settled(t) && Holds(t, s)
    ensures RawInvariant(t) && View(Decoded(t)) == s
  {
    var st :| Consistent(st) && Rep(t, st) && View(st) == s;
    RestartKeepsRegistry(t, st);
  }

  /** Closing and opening the file changes nothing, and the new handle holds what the file holds. */
  method Reopen(db: D.Database) returns (redb: R.RedbRegistry)
    requires Settled(db.committed)
    modifies db
    ensures db.committed == old(db.committed)
    ensures fresh(redb) && redb.db == db
    ensures forall s :: Holds(db.committed, s) ==> redb.Valid() && redb.Abs() == s
  {
    ReopenChangesNothing(db.committed);
    redb := OpenRegistry(db);
    forall s | Holds(db.committed, s)
      ensures redb.Valid() && redb.Abs() == s
    {
      HeldSettledOpens(db.committed, s);
    }
  }

  /** Both backends run, on a database file that is opened for it. */
  method RunReopened(memory: M.InMemoryRegistry, db: D.Database, ops: seq<Operation>)
    returns (fromMemory: seq<Response>, fromRedb: seq<Response>)
    requires memory.Valid() && Settled(db.committed)
    modifies memory, db
    ensures memory.Valid() && Settled(db.committed)
    ensures (memory.Abs(), fromMemory) == Run(old(memory.Abs()), ops)
    ensures old(Holds(db.committed, Clamped(memory.Abs()))) && AgreeThroughout(old(memory.Abs()), ops) ==>
              Holds(db.committed, Clamped(memory.Abs())) && fromMemory == fromRedb
  {
    var redb := Reopen(db);
    ghost var after;
    fromMemory, fromRedb, after := RunBoth(memory, redb, ops);
  }

  /**
   The same across any number of runs, the file closed and opened again before each: as long as the backends
   agree, restarts do not show.
   */
  method RunAcrossRestarts(memory: M.InMemoryRegistry, db: D.Database, runs: seq<seq<Operation>>)
    returns (fromMemory: seq<Response>, fromRedb: seq<Response>)
    requires memory.Valid() && Settled(db.committed)
    modifies memory, db
    ensures memory.Valid() && Settled(db.committed)
    ensures (memory.Abs(), fromMemory) == Run(old(memory.Abs()), Flatten(runs))
    ensures old(Holds(db.committed, Clamped(memory.Abs()))) && AgreeThroughout(old(memory.Abs()), Flatten(runs)) ==>
              Holds(db.committed, Clamped(memory.Abs())) && fromMemory == fromRedb
  {
    fromMemory, fromRedb := [], [];
    ghost var start := memory.Abs();
    ghost var agreed := Holds(db.committed, Clamped(start)) && AgreeThroughout(start, Flatten(runs));
    for i := 0 to |runs|
      invariant memory.Valid() && Settled(db.committed)
      invariant (memory.Abs(), fromMemory) == Run(start, Flatten(runs[..i]))
      invariant agreed ==> Holds(db.committed, Clamped(memory.Abs())) && fromMemory == fromRedb
    {
      NextRun(start, runs, i);
      if agreed { NextRunAgrees(start, runs, i); }
      var moreFromMemory, moreFromRedb := RunReopened(memory, db, runs[i]);
      fromMemory, fromRedb := fromMemory + moreFromMemory, fromRedb + moreFromRedb;
    }
    assert runs[..|runs|] == runs;
  }

  method NewDatabase() returns (db: D.Database)
    ensures fresh(db) && Settled(db.committed) && Holds(db.committed, Clamped(INITIAL))
  {
    db := new D.Database.Create();
    NewDatabaseOpens(db.committed);
    Open(db);
  }

  /**
   From a new in-memory registry and a new database file: as long as the backends agree, every answer is the
   registry's, from both, however often the file is closed and opened in between.
   */
  method RunWithRestarts(runs: seq<seq<Operation>>) returns (fromMemory: seq<Response>, fromRedb: seq<Response>)
    ensures fromMemory == Run(INITIAL, Flatten(runs)).1
    ensures AgreeThroughout(INITIAL, Flatten(runs)) ==> fromRedb == fromMemory
  {
    var db := NewDatabase();
    var memory := new M.InMemoryRegistry();
    fromMemory, fromRedb := RunAcrossRestarts(memory, db, runs);
  }

  lemma NextRun(start: Registry, runs: seq<seq<Operation>>, i: nat)
    requires i < |runs|
    ensures var (s, answers) := Run(start, Flatten(runs[..i]));
      Run(start, Flatten(runs[..i + 1])) == (Run(s, runs[i]).0, answers + Run(s, runs[i]).1)
  {
    OneMoreRun(runs, i);
    RunConcat(start, Flatten(runs[..i]), runs[i]);
  }

  lemma NextRunAgrees(start: Registry, runs: seq<seq<Operation>>, i: nat)
    requires i < |runs| && AgreeThroughout(start, Flatten(runs))
    ensures AgreeThroughout(Run(start, Flatten(runs[..i])).0, runs[i])
  {
    OneMoreRun(runs, i);
    RunsSoFar(runs, i + 1);
    assert Flatten(runs[..i]) + runs[i] <= Flatten(runs);
    AgreeOnNextRun(start, Flatten(runs[..i]), runs[i], Flatten(runs));
  }

  lemma MigratedIsSettled(t: Tables)
    requires WellFormedV0(t)
    ensures Settled(Opened(t)) && Holds(Opened(t), View(Decoded(Opened(t))))
  {
    MigrationEstablishesInvariant(t);
    OpenedIsSettled(t);
    RawInvariantRepresents(Opened(t));
    HeldTablesAreReadable(Opened(t), Decoded(Opened(t)));
  }

  lemma NewDatabaseOpens(t: Tables)
    requires NewFile(t)
    ensures Settled(Opened(t)) && Holds(Opened(t), Clamped(INITIAL))
  {
    FreshDatabase(t);
    MigratedIsSettled(t);
    InitialIsClamped();
  }

  lemma InitialIsClamped()
    ensures Clamped(INITIAL) == INITIAL
  {
  }
}
