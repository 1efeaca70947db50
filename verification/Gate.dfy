/**
 The gate: `RingGate::handle_request` of src/protocol/gate.rs.

 Between any two awaits other tasks run: they operate on the registry and time passes. `World` is
 where that happens; it remembers every registry there has been, with the clock reading. What the
 network and the `Transfer` do is left open: writes may fail, and `can_access` may answer anything.
 */
module Gate {
  import opened Types
  import opened RegistrySpec
  import opened RegistryInvariants
  import opened Protocol

  datatype Moment = Moment(registry: Registry, now: Time)

  ghost predicate RunsTo(s: Registry, ops: seq<Operation>, s': Registry) {
    Run(s, ops).0 == s'
  }

  ghost predicate Reaches(s: Registry, s': Registry) {
    exists ops :: RunsTo(s, ops, s')
  }

  class World {
    var moments: seq<Moment>

    ghost predicate Valid()
      reads this
    {
      moments != [] && forall m :: m in moments ==> WellFormed(m.registry)
    }

    function Present(): Moment
      requires moments != []
      reads this
    {
      moments[|moments| - 1]
    }

    /** Other tasks run any operations on the registry, and the clock moves, forwards or backwards. */
    method OtherTasks()
      requires Valid()
      modifies this
      ensures Valid() && |moments| == |old(moments)| + 1 && old(moments) <= moments
      ensures Reaches(old(Present().registry), Present().registry)
    {
      var before := Present().registry;
      var ops: seq<Operation> :| true;
      var now: Time :| true;
      var after := Run(before, ops).0;
      RunKeepsWellFormed(before, ops);
      moments := moments + [Moment(after, now)];
      assert Present().registry == after;
      assert RunsTo(before, ops, after);
    }

    /** `Registry::has_permission`: one look at the registry, or a storage error. */
    method AskRegistry(peer: Peer, resource: Bytes, permission: Permission) returns (answer: Result<bool>)
      requires moments != []
      ensures answer in {Err(Storage), Ok(HasPermission(Present().registry, peer, resource, permission, Present().now))}
    {
      var fails: bool := *;
      if fails {
        answer := Err(Storage);
      } else {
        answer := Ok(HasPermission(Present().registry, peer, resource, permission, Present().now));
      }
    }
  }

  class RecvStream {
    /** What the initiator sends from here on. */
    var pending: Bytes

    method ReadExact(n: nat) returns (result: Result<Bytes>)
      modifies this
      ensures |old(pending)| < n ==> result.Err? && pending == []
      ensures |old(pending)| >= n ==> result == Ok(old(pending)[..n]) && pending == old(pending)[n..]
    {
      if |pending| < n {
        pending := [];
        return Err(Storage);
      }
      result := Ok(pending[..n]);
      pending := pending[n..];
    }
  }

  class SendStream {
    var sent: Bytes
    var finished: bool

    method WriteAll(data: Bytes) returns (ok: bool)
      modifies `sent
      ensures sent == if ok then old(sent) + data else old(sent)
    {
      ok := *;
      if ok {
        sent := sent + data;
      }
    }

    method Finish()
      modifies `finished
      ensures finished
    {
      finished := true;
    }
  }

  /** What happened while a request was handled. */
  datatype Log = Log(
    registrySaid: Option<(Moment, Result<bool>)>,
    transferSaid: Option<bool>,
    handedOver: Option<Bytes>)

  predicate Approved(log: Log) {
    (log.registrySaid.Some? && log.registrySaid.value.1 == Ok(true)) || log.transferSaid == Some(true)
  }

  /** The registry was asked what the request says, at a moment there was. */
  ghost predicate AskedTruly(log: Log, peer: Peer, resource: Bytes, permission: Permission, moments: seq<Moment>) {
    && log.registrySaid.Some?
    && var (m, answer) := log.registrySaid.value;
       m in moments
       && (answer.Ok? ==> answer.value == HasPermission(m.registry, peer, resource, permission, m.now))
  }

  const DENIED: Bytes := [StatusByte(Denied)]
  const ALLOWED: Bytes := [StatusByte(Allowed)]

  /**
   What the gate may do with a stream that starts with `input`. `ok` is false if a read, a write or the
   transfer failed.
   */
  ghost predicate Handled(
    peer: Peer, input: Bytes, moments: seq<Moment>, log: Log, sent: Bytes, finished: bool, ok: bool)
  {
    match ParseRequest(input)
    case Short => !ok && sent == [] && !finished && log == Log(None, None, None)
    case TooLong(_) => !ok && sent == [] && !finished && log == Log(None, None, None)
    case UnknownOperation(_, _) =>
      && log == Log(None, None, None)
      && finished == ok
      && sent == if ok then DENIED else []
    case Request(resource, permission, rest) =>
      && AskedTruly(log, peer, resource, permission, moments)
      && (log.transferSaid.Some? <==> log.registrySaid.value.1 != Ok(true))
      && (log.handedOver.Some? ==> Approved(log) && log.handedOver == Some(rest) && ALLOWED <= sent && finished == ok)
      && (log.handedOver.None? && Approved(log) ==> !ok && sent == [] && !finished)
      && (!Approved(log) ==> finished == ok && sent == if ok then DENIED else [])
  }

  /** `Transfer::can_access`, in which other tasks run. */
  method AskTransfer(world: World) returns (answer: bool)
    requires world.Valid()
    modifies world
    ensures world.Valid() && old(world.moments) <= world.moments
  {
    world.OtherTasks();
    answer := *;
  }

  /** `Transfer::transfer`: it may read what is left of one stream and write to the other. */
  method RunTransfer(recv: RecvStream, send: SendStream) returns (ok: bool)
    modifies recv, send`sent
    ensures old(send.sent) <= send.sent
  {
    var output: Bytes := *;
    var leftover: Bytes := *;
    recv.pending := leftover;
    send.sent := send.sent + output;
    ok := *;
  }

  /** The header, read piece by piece: the resource id and the operation byte. */
  method ReadRequest(recv: RecvStream) returns (result: Result<(Bytes, byte)>)
    modifies recv
    ensures result.Err? <==> ParseRequest(old(recv.pending)).Short? || ParseRequest(old(recv.pending)).TooLong?
    ensures result.Ok? ==>
              ParseRequest(old(recv.pending)) ==
              match ParseOperation(result.value.1)
              case Ok(permission) => Request(result.value.0, permission, recv.pending)
              case Err(_) => UnknownOperation(result.value.1, recv.pending)
  {
    ghost var input := recv.pending;
    var lenBuf := recv.ReadExact(2);
    if lenBuf.Err? {
      return Err(lenBuf.error);
    }
    var len := LeU16(lenBuf.value[0], lenBuf.value[1]);
    if len > MAX_RESOURCE_ID_BYTES {
      return Err(ResourceIdTooLong(len));
    }
    var resource := recv.ReadExact(len);
    if resource.Err? {
      return Err(resource.error);
    }
    var opBuf := recv.ReadExact(1);
    if opBuf.Err? {
      return Err(opBuf.error);
    }
    assert input[2..][len..][0] == input[2 + len] && input[2..][len..][1..] == input[2 + len + 1..];
    assert resource.value == input[2..2 + len];
    result := Ok((resource.value, opBuf.value[0]));
  }

  /** One DENIED byte, and the stream is finished. */
  method Refuse(send: SendStream) returns (ok: bool)
    modifies send
    ensures send.sent == if ok then old(send.sent) + DENIED else old(send.sent)
    ensures send.finished == (ok || old(send.finished))
  {
    ok := send.WriteAll(DENIED);
    if ok {
      send.Finish();
    }
  }

  /** The two checks: `has_permission`, and unless it says yes, `can_access`. */
  method Decide(world: World, peer: Peer, resource: Bytes, permission: Permission) returns (log: Log)
    requires world.Valid()
    modifies world
    ensures world.Valid() && old(world.moments) <= world.moments
    ensures AskedTruly(log, peer, resource, permission, world.moments[|old(world.moments)|..])
    ensures log.handedOver == None
    ensures log.transferSaid.Some? <==> log.registrySaid.value.1 != Ok(true)
  {
    ghost var start := |world.moments|;
    world.OtherTasks();
    var granted := world.AskRegistry(peer, resource, permission);
    log := Log(Some((world.Present(), granted)), None, None);
    ghost var asked := world.moments;
    assert world.Present() in world.moments[start..];
    if granted != Ok(true) {
      var allowed := AskTransfer(world);
      log := log.(transferSaid := Some(allowed));
      assert world.moments[start..][..|asked| - start] == asked[start..];
    }
  }

  method HandleRequest(world: World, peer: Peer, recv: RecvStream, send: SendStream) returns (ok: bool, log: Log)
    requires world.Valid()
    requires send.sent == [] && !send.finished
    modifies world, recv, send
    ensures world.Valid() && old(world.moments) <= world.moments
    ensures Handled(
              peer, old(recv.pending), world.moments[|old(world.moments)|..], log, send.sent, send.finished, ok)
  {
    log := Log(None, None, None);
    var header := ReadRequest(recv);
    if header.Err? {
      return false, log;
    }
    var (resource, operation) := header.value;
    var permission := ParseOperation(operation);
    if permission.Err? {
      ok := Refuse(send);
      return;
    }
    log := Decide(world, peer, resource, permission.value);
    if !Approved(log) {
      ok := Refuse(send);
      return;
    }
    ok := send.WriteAll(ALLOWED);
    if !ok {
      return;
    }
    log := log.(handedOver := Some(recv.pending));
    ok := RunTransfer(recv, send);
    if ok {
      send.Finish();
    }
  }

  // ---------------------------------------------------------------- what follows

  /**
   Over every input stream and whatever ran in between: the gate sends nothing, or one DENIED byte, or
   ALLOWED and then only what the transfer sends.
   */
  lemma OutputShape(
    peer: Peer, input: Bytes, moments: seq<Moment>, log: Log, sent: Bytes, finished: bool, ok: bool)
    requires Handled(peer, input, moments, log, sent, finished, ok)
    ensures || sent == []
            || (sent == [0x00] && log.handedOver.None? && finished)
            || (sent != [] && sent[0] == 0x01 && log.handedOver.Some?)
    ensures log.handedOver.Some? <==> sent != [] && sent[0] == 0x01
  {
    StatusBytes();
  }

  lemma StatusBytes()
    ensures DENIED == [0x00] && ALLOWED == [0x01]
  {
  }

  /** A header cut short, or a length over 256, ends the handling without an answer; the registry is not asked. */
  lemma MalformedIsDropped(
    peer: Peer, input: Bytes, moments: seq<Moment>, log: Log, sent: Bytes, finished: bool, ok: bool)
    requires Handled(peer, input, moments, log, sent, finished, ok)
    requires |input| < 2 || input[0] as int + 256 * (input[1] as int) > 256
             || |input| < input[0] as int + 256 * (input[1] as int) + 3
    ensures !ok && sent == [] && !finished && log == Log(None, None, None)
  {
    ParseRequestMeaning(input);
  }

  /** An operation byte other than 1, 2 and 3 is answered with a DENIED byte, and the registry is not asked. */
  lemma UnknownOperationIsDenied(
    peer: Peer, input: Bytes, moments: seq<Moment>, log: Log, sent: Bytes, finished: bool, ok: bool)
    requires Handled(peer, input, moments, log, sent, finished, ok)
    requires |input| >= 2
    requires var len := input[0] as int + 256 * (input[1] as int);
      len <= 256 && |input| >= len + 3 && input[len + 2] !in {1, 2, 3}
    ensures log == Log(None, None, None) && finished == ok && sent == if ok then [0x00] else []
  {
    ParseRequestMeaning(input);
    StatusBytes();
  }

  /**
   A well-formed request: the registry is asked what the bytes say, the transfer's check only if the registry
   did not say yes, an error counting as no. Refused, the peer gets a DENIED byte and the end of the stream;
   approved, the stream ends when the transfer succeeds.
   */
  lemma RequestIsAnswered(
    peer: Peer, input: Bytes, moments: seq<Moment>, log: Log, sent: Bytes, finished: bool, ok: bool,
    resource: Bytes, p: Permission, rest: Bytes)
    requires |resource| <= 256 && input == RequestBytes(resource, p) + rest
    requires Handled(peer, input, moments, log, sent, finished, ok)
    ensures AskedTruly(log, peer, resource, p, moments)
    ensures log.transferSaid.Some? <==> log.registrySaid.value.1 == Ok(false) || log.registrySaid.value.1.Err?
    ensures log.registrySaid.value.1 != Ok(true) && log.transferSaid == Some(false) ==>
              log.handedOver.None? && finished == ok && sent == if ok then [0x00] else []
    ensures ok && (log.registrySaid.value.1 == Ok(true) || log.transferSaid == Some(true)) ==>
              log.handedOver == Some(rest) && sent != [] && sent[0] == 0x01 && finished
    ensures log.handedOver.Some? ==> finished == ok
  {
    ParsesExactlyEncodings(input, resource, p, rest);
    StatusBytes();
  }

  /**
   No transfer without permission: if one started, the stream began with the encoding of a request, the
   transfer was left exactly what followed it, and the peer held the permission at a moment while the
   request was handled, unless the transfer's own check let it in.
   */
  lemma TransferNeedsPermission(
    peer: Peer, input: Bytes, moments: seq<Moment>, log: Log, sent: Bytes, finished: bool, ok: bool)
    requires Handled(peer, input, moments, log, sent, finished, ok)
    requires log.handedOver.Some?
    ensures exists resource, p ::
              && |resource| <= MAX_RESOURCE_ID_BYTES
              && input == RequestBytes(resource, p) + log.handedOver.value
              && (log.transferSaid == Some(true) || HeldAt(moments, peer, resource, p))
  {
    var Request(resource, p, rest) := ParseRequest(input);
    ParsesExactlyEncodings(input, resource, p, rest);
    if log.transferSaid != Some(true) {
      var m := log.registrySaid.value.0;
      assert m in moments && HasPermission(m.registry, peer, resource, p, m.now);
      assert HeldAt(moments, peer, resource, p);
    }
  }

  ghost predicate HeldAt(moments: seq<Moment>, peer: Peer, resource: Bytes, p: Permission) {
    exists m :: m in moments && HasPermission(m.registry, peer, resource, p, m.now)
  }

  /** A request the registry grants throughout is served whenever storage and network do not fail. */
  lemma GrantedIsServed(
    peer: Peer, resource: Bytes, p: Permission, rest: Bytes, moments: seq<Moment>, log: Log, sent: Bytes,
    finished: bool, ok: bool)
    requires |resource| <= MAX_RESOURCE_ID_BYTES
    requires Handled(peer, RequestBytes(resource, p) + rest, moments, log, sent, finished, ok)
    requires forall m :: m in moments ==> HasPermission(m.registry, peer, resource, p, m.now)
    requires log.registrySaid.Some? && log.registrySaid.value.1.Ok? && sent != []
    ensures log.handedOver == Some(rest)
  {
    ParsesExactlyEncodings(RequestBytes(resource, p) + rest, resource, p, rest);
  }

  /** A request nobody grants is never served. */
  lemma RefusedIsDenied(
    peer: Peer, resource: Bytes, p: Permission, rest: Bytes, moments: seq<Moment>, log: Log, sent: Bytes,
    finished: bool, ok: bool)
    requires |resource| <= MAX_RESOURCE_ID_BYTES
    requires Handled(peer, RequestBytes(resource, p) + rest, moments, log, sent, finished, ok)
    requires !HeldAt(moments, peer, resource, p) && log.transferSaid != Some(true)
    ensures log.handedOver == None && (sent == DENIED || sent == [])
  {
    ParsesExactlyEncodings(RequestBytes(resource, p) + rest, resource, p, rest);
  }
}
