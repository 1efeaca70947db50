/**
 Serving blobs: `FsTransfer` of src/transfers/fs.rs. The blob store is not part of this model: what it
 answers is an input, and what `export_bao` writes is left open.
 */
module FsTransfer {
  import opened Types
  import opened Ring
  import opened RegistrySpec
  import opened RegistryInvariants
  import opened Encoding
  import opened ChunkRanges
  import opened RangesWire
  import opened Protocol
  import opened Gate

  /** A tag of the store, and what `get_bytes` gives for its blob. */
  datatype Tag = Tag(hash: Hash, isHashSeq: bool, bytes: Result<Bytes>)

  /** The tags as they are listed; the listing may break off at an error. */
  type Listing = seq<Result<Tag>>

  // ---------------------------------------------------------------- access through collections

  /** The collections among the tags before the first error. */
  function Collections(tags: Listing): seq<Tag> {
    if tags == [] || tags[0].Err? then []
    else (if tags[0].value.isHashSeq then [tags[0].value] else []) + Collections(tags[1..])
  }

  /** The bytes are a hash sequence with `hash` in it. */
  predicate Refers(bytes: Result<Bytes>, hash: Bytes) {
    bytes.Ok? && |bytes.value| % 32 == 0 && hash in DecodeChunks(bytes.value)
  }

  /** Anywhere in the sequence, in whole steps of 32 bytes, and nowhere else. */
  lemma RefersIff(bs: Bytes, hash: Bytes)
    ensures Refers(Ok(bs), hash) <==>
            |bs| % 32 == 0 && exists i :: 0 <= i && 32 * i + 32 <= |bs| && bs[32 * i..32 * i + 32] == hash
    ensures !Refers(Err(Storage), hash)
  {
    ChunkAt(bs);
    if i :| 0 <= i && 32 * i + 32 <= |bs| && bs[32 * i..32 * i + 32] == hash {
      assert DecodeChunks(bs)[i] == hash;
    }
    if Refers(Ok(bs), hash) {
      var i :| 0 <= i < |DecodeChunks(bs)| && DecodeChunks(bs)[i] == hash;
      assert bs[32 * i..32 * i + 32] == hash;
    }
  }

  /** The tags up to `i` are listed without an error, and tag `i` is a collection. */
  ghost predicate CollectionAt(tags: Listing, i: nat, c: Tag) {
    i < |tags| && tags[i] == Ok(c) && c.isHashSeq && forall j :: 0 <= j < i ==> tags[j].Ok?
  }

  lemma {:induction false} CollectionsMeaning(tags: Listing, c: Tag)
    ensures c in Collections(tags) <==> exists i: nat :: CollectionAt(tags, i, c)
  {
    if tags != [] && tags[0].Ok? {
      var tail := tags[1..];
      CollectionsMeaning(tail, c);
      if i: nat :| CollectionAt(tail, i, c) {
        assert CollectionAt(tags, i + 1, c);
      }
      if i: nat :| CollectionAt(tags, i, c) {
        assert i > 0 ==> CollectionAt(tail, i - 1, c);
      }
      if tags[0] == Ok(c) && c.isHashSeq {
        assert CollectionAt(tags, 0, c);
      }
    }
  }

  /** One look at the registry: may the peer read this resource? */
  datatype Question = Question(resource: Bytes, moment: Moment, answer: Result<bool>)

  ghost predicate Truthful(q: Question, peer: Peer, moments: seq<Moment>) {
    && q.moment in moments
    && (q.answer.Ok? ==> q.answer.value == HasPermission(q.moment.registry, peer, q.resource, Read, q.moment.now))
  }

  predicate Opens(q: Question, collection: Tag, hash: Bytes) {
    q.answer == Ok(true) && Refers(collection.bytes, hash)
  }

  /** The registry was asked about the collections in the order of their tags, up to the first that settles it. */
  ghost predicate Searched(collections: seq<Tag>, hash: Bytes, asked: seq<Question>, found: bool) {
    && |asked| <= |collections|
    && (forall j :: 0 <= j < |asked| ==> asked[j].resource == collections[j].hash)
    && (forall j :: 0 <= j < |asked| - 1 ==> !Opens(asked[j], collections[j], hash))
    && (found ==> asked != [] && Opens(asked[|asked| - 1], collections[|asked| - 1], hash))
    && (!found ==>
          && |asked| == |collections|
          && (asked != [] ==> !Opens(asked[|asked| - 1], collections[|asked| - 1], hash)))
  }

  ghost predicate AllTruthful(asked: seq<Question>, peer: Peer, moments: seq<Moment>) {
    forall q :: q in asked ==> Truthful(q, peer, moments)
  }

  lemma StillTruthful(asked: seq<Question>, peer: Peer, moments: seq<Moment>, more: seq<Moment>, start: nat)
    requires start <= |moments| && moments <= more
    requires AllTruthful(asked, peer, moments[start..])
    ensures AllTruthful(asked, peer, more[start..])
  {
    assert more[start..][..|moments| - start] == moments[start..];
  }

  lemma NextTag(tags: Listing, i: nat)
    requires i < |tags|
    ensures tags[i].Err? ==> Collections(tags[i..]) == []
    ensures tags[i].Ok? && tags[i].value.isHashSeq
            ==> Collections(tags[i..]) == [tags[i].value] + Collections(tags[i + 1..])
    ensures tags[i].Ok? && !tags[i].value.isHashSeq ==> Collections(tags[i..]) == Collections(tags[i + 1..])
  {
    assert tags[i..][0] == tags[i] && tags[i..][1..] == tags[i + 1..];
  }

  /** `rest` are the collections not asked about yet; none asked about settled it. */
  ghost predicate SoFar(collections: seq<Tag>, rest: seq<Tag>, hash: Bytes, asked: seq<Question>) {
    && |asked| <= |collections| && collections[|asked|..] == rest
    && (forall j :: 0 <= j < |asked| ==> asked[j].resource == collections[j].hash)
    && (forall j :: 0 <= j < |asked| ==> !Opens(asked[j], collections[j], hash))
  }

  lemma AskedOneMore(collections: seq<Tag>, c: Tag, rest: seq<Tag>, hash: Bytes, asked: seq<Question>, q: Question)
    requires SoFar(collections, [c] + rest, hash, asked) && q.resource == c.hash
    ensures Opens(q, c, hash) ==> Searched(collections, hash, asked + [q], true)
    ensures !Opens(q, c, hash) ==> SoFar(collections, rest, hash, asked + [q])
  {
    assert collections[|asked|] == collections[|asked|..][0] == c;
    assert collections[|asked| + 1..] == collections[|asked|..][1..];
  }

  /** Other tasks run, and then the registry is asked. */
  method Ask(world: World, peer: Peer, resource: Bytes, ghost asked: seq<Question>, ghost start: nat)
    returns (q: Question)
    requires world.Valid() && start <= |world.moments| && AllTruthful(asked, peer, world.moments[start..])
    modifies world
    ensures world.Valid() && old(world.moments) <= world.moments
    ensures q.resource == resource && AllTruthful(asked + [q], peer, world.moments[start..])
  {
    world.OtherTasks();
    StillTruthful(asked, peer, old(world.moments), world.moments, start);
    var answer := world.AskRegistry(peer, resource, Read);
    q := Question(resource, world.Present(), answer);
    assert q.moment == world.moments[start..][|world.moments| - 1 - start];
  }

  /** One collection: the peer may read it, and it can be read and refers to the blob. */
  method TryCollection(
    world: World, peer: Peer, collection: Tag, hash: Hash,
    ghost collections: seq<Tag>, ghost rest: seq<Tag>, ghost first: Question, ghost asked: seq<Question>,
    ghost start: nat)
    returns (q: Question, found: bool)
    requires world.Valid() && start <= |world.moments| && AllTruthful([first] + asked, peer, world.moments[start..])
    requires SoFar(collections, [collection] + rest, hash, asked)
    modifies world
    ensures world.Valid() && old(world.moments) <= world.moments
    ensures AllTruthful([first] + (asked + [q]), peer, world.moments[start..])
    ensures if found then Searched(collections, hash, asked + [q], true)
            else SoFar(collections, rest, hash, asked + [q])
  {
    q := Ask(world, peer, collection.hash, [first] + asked, start);
    assert [first] + asked + [q] == [first] + (asked + [q]);
    AskedOneMore(collections, collection, rest, hash, asked, q);
    if q.answer != Ok(true) || collection.bytes.Err? || |collection.bytes.value| % 32 != 0 {
      return q, false;
    }
    found := ContainsChunk(collection.bytes.value, hash);
  }

  /** The questions asked here come after the `first`, about the blob itself. */
  method IsMemberOfAllowedCollection(
    world: World, peer: Peer, hash: Hash, listing: Result<Listing>, ghost first: Question, ghost start: nat)
    returns (found: bool, asked: seq<Question>)
    requires world.Valid() && start <= |world.moments| && AllTruthful([first], peer, world.moments[start..])
    modifies world
    ensures world.Valid() && old(world.moments) <= world.moments
    ensures AllTruthful([first] + asked, peer, world.moments[start..])
    ensures listing.Err? ==> !found && asked == []
    ensures listing.Ok? ==> Searched(Collections(listing.value), hash, asked, found)
  {
    asked := [];
    assert [first] + asked == [first];
    if listing.Err? {
      return false, asked;
    }
    var tags := listing.value;
    ghost var collections := Collections(tags);
    assert tags[0..] == tags;
    var i := 0;
    while i < |tags| && tags[i].Ok?
      invariant i <= |tags|
      invariant world.Valid() && old(world.moments) <= world.moments
      invariant AllTruthful([first] + asked, peer, world.moments[start..])
      invariant SoFar(collections, Collections(tags[i..]), hash, asked)
      decreases |tags| - i
    {
      NextTag(tags, i);
      var info := tags[i].value;
      i := i + 1;
      if info.isHashSeq {
        var q, opens := TryCollection(world, peer, info, hash, collections, Collections(tags[i..]), first, asked,
            start);
        asked := asked + [q];
        if opens {
          return true, asked;
        }
      }
    }
    if i < |tags| {
      NextTag(tags, i);
    }
    found := false;
  }

  /** What `can_access` may answer, and after which questions. */
  ghost predicate Decided(
    peer: Peer, resource: Bytes, listing: Result<Listing>, moments: seq<Moment>, asked: seq<Question>, granted: bool)
  {
    && asked != []
    && AllTruthful(asked, peer, moments)
    && asked[0].resource == resource
    && if asked[0].answer == Ok(true) then granted && |asked| == 1
       else if |resource| != 32 || listing.Err? then !granted && |asked| == 1
       else Searched(Collections(listing.value), resource, asked[1..], granted)
  }

  method CanAccess(world: World, peer: Peer, resource: Bytes, listing: Result<Listing>)
    returns (granted: bool, asked: seq<Question>)
    requires world.Valid()
    modifies world
    ensures world.Valid() && old(world.moments) <= world.moments
    ensures Decided(peer, resource, listing, world.moments[|old(world.moments)|..], asked, granted)
  {
    ghost var start := |world.moments|;
    var direct := Ask(world, peer, resource, [], start);
    assert [] + [direct] == [direct];
    if direct.answer == Ok(true) {
      return true, [direct];
    }
    if |resource| != 32 {
      return false, [direct];
    }
    var more;
    granted, more := IsMemberOfAllowedCollection(world, peer, resource, listing, direct, start);
    asked := [direct] + more;
    assert asked[1..] == more;
  }

  // ---------------------------------------------------------------- what access means

  ghost predicate HeldThroughCollection(moments: seq<Moment>, peer: Peer, listing: Result<Listing>, resource: Bytes) {
    && listing.Ok?
    && exists c :: c in Collections(listing.value) && Refers(c.bytes, resource) && HeldAt(moments, peer, c.hash, Read)
  }

  /** Whoever is let in could, while being decided on, read the blob itself or a collection that refers to it. */
  lemma AccessIsHeld(
    peer: Peer, resource: Bytes, listing: Result<Listing>, moments: seq<Moment>, asked: seq<Question>, granted: bool)
    requires Decided(peer, resource, listing, moments, asked, granted) && granted
    ensures HeldAt(moments, peer, resource, Read) || HeldThroughCollection(moments, peer, listing, resource)
  {
    if asked[0].answer == Ok(true) {
      assert Truthful(asked[0], peer, moments);
    } else {
      var q, c := asked[|asked| - 1], Collections(listing.value)[|asked| - 2];
      assert Opens(q, c, resource) && Truthful(q, peer, moments);
      assert HeldAt(moments, peer, c.hash, Read);
    }
  }

  /**
   Whoever can all along read the blob or a listed collection that refers to it is let in, if the registry
   answers.
   */
  lemma HeldIsAccess(
    peer: Peer, resource: Bytes, listing: Result<Listing>, moments: seq<Moment>, asked: seq<Question>, granted: bool,
    c: Tag)
    requires Decided(peer, resource, listing, moments, asked, granted)
    requires forall q :: q in asked ==> q.answer.Ok?
    requires
      || (forall m :: m in moments ==> HasPermission(m.registry, peer, resource, Read, m.now))
      || (|resource| == 32 && listing.Ok? && c in Collections(listing.value) && Refers(c.bytes, resource)
          && forall m :: m in moments ==> HasPermission(m.registry, peer, c.hash, Read, m.now))
    ensures granted
  {
    assert Truthful(asked[0], peer, moments);
    if asked[0].answer != Ok(true) && !granted {
      var collections, more := Collections(listing.value), asked[1..];
      var j :| 0 <= j < |collections| && collections[j] == c;
      assert more[j] in asked && Truthful(more[j], peer, moments);
      assert Opens(more[j], collections[j], resource);
      assert false;
    }
  }

  // ---------------------------------------------------------------- the negotiation

  /** What the peer lacks, and what it sends after saying so. */
  datatype Negotiated = Negotiated(missing: seq<nat>, rest: Bytes)

  function CountField(input: Bytes): (count: u32)
    requires |input| >= 4
  {
    FromLeBound(input[..4]);
    WidthValues();
    FromLe(input[..4])
  }

  function Negotiate(input: Bytes): Option<Negotiated> {
    if |input| < 4 || |input| < 4 + 16 * CountField(input) then None
    else
      var count, end := CountField(input), 4 + 16 * CountField(input);
      Some(Negotiated(Missing(UnionOf(input[4..end], count)), input[end..]))
  }

  /** `export_bao(hash, missing)` may write anything, and may fail. */
  method ExportBao(send: SendStream) returns (ok: bool)
    modifies send`sent
    ensures old(send.sent) <= send.sent
  {
    var output: Bytes := *;
    send.sent := send.sent + output;
    ok := *;
  }

  /** The count, and as many entries. */
  method ReadRanges(recv: RecvStream) returns (result: Result<(u32, Bytes)>)
    modifies recv
    ensures result.Ok? <==> Negotiate(old(recv.pending)).Some?
    ensures result.Err? ==> recv.pending == []
    ensures result.Ok? ==>
              && |result.value.1| == 16 * result.value.0
              && Negotiate(old(recv.pending)) ==
                 Some(Negotiated(Missing(UnionOf(result.value.1, result.value.0)), recv.pending))
  {
    ghost var input := recv.pending;
    var countBuf := recv.ReadExact(4);
    if countBuf.Err? {
      return Err(countBuf.error);
    }
    FromLeBound(countBuf.value);
    WidthValues();
    var rangeCount := FromLe(countBuf.value);
    assert rangeCount == CountField(input);
    var rangeData: Bytes := [];
    if 16 * rangeCount > 0 {
      var read := recv.ReadExact(16 * rangeCount);
      if read.Err? {
        return Err(read.error);
      }
      rangeData := read.value;
    }
    ghost var end: nat := 4 + 16 * rangeCount;
    assert rangeData == input[4..end] && recv.pending == input[end..];
    result := Ok((rangeCount, rangeData));
  }

  method Transfer(resource: Bytes, send: SendStream, recv: RecvStream)
    returns (ok: bool, exported: Option<(Hash, seq<nat>)>)
    modifies recv, send`sent
    ensures Negotiate(old(recv.pending)).None? ==>
              !ok && exported == None && send.sent == old(send.sent) && recv.pending == []
    ensures Negotiate(old(recv.pending)).Some? ==>
              && recv.pending == Negotiate(old(recv.pending)).value.rest
              && (|resource| == 32 ==>
                    exported == Some((resource, Negotiate(old(recv.pending)).value.missing))
                        && old(send.sent) <= send.sent)
              && (|resource| != 32 ==> !ok && exported == None && send.sent == old(send.sent))
  {
    exported := None;
    var ranges := ReadRanges(recv);
    if ranges.Err? {
      return false, exported;
    }
    var alreadyHave := DecodeRangesWire(ranges.value.0, ranges.value.1);
    assert alreadyHave.Ok?;
    if |resource| != 32 {
      return false, exported;
    }
    exported := Some((resource, Missing(alreadyHave.value)));
    ok := ExportBao(send);
  }

  /** The count is the first four bytes, least significant first. */
  lemma CountBytes(input: Bytes)
    requires |input| >= 4
    ensures CountField(input) ==
            (input[0] as int) + 0x100 * (input[1] as int)
            + 0x1_0000 * (input[2] as int) + 0x100_0000 * (input[3] as int)
  {
    FromLe4(input[..4]);
  }

  lemma EntriesAreThoseCounted(raw: Bytes, after: Bytes, count: nat, x: nat)
    requires |raw| == 16 * count
    ensures Canonical(Missing(UnionOf(raw, count)))
    ensures Contains(Missing(UnionOf(raw, count)), x) <==> !InSomeEntry(raw + after, count, x)
  {
    TrailingBytesIgnored(raw, after, count);
    UnionOfMeaning(raw + after, count, x);
    MissingMeaning(UnionOf(raw, count), x);
  }

  /**
   For any input: a negotiation succeeds when the counted entries are there, and a chunk is missing exactly
   when none of them covers it.
   */
  lemma NegotiateMeaning(input: Bytes, x: nat)
    ensures Negotiate(input).Some? <==> |input| >= 4 && |input| - 4 >= 16 * FromLe(input[..4])
    ensures Negotiate(input).Some? ==>
              && Canonical(Negotiate(input).value.missing)
              && (Contains(Negotiate(input).value.missing, x) <==> !InSomeEntry(input[4..], FromLe(input[..4]), x))
  {
    if Negotiate(input).Some? {
      var count: nat := CountField(input);
      var end := 4 + 16 * count;
      assert input[4..] == input[4..end] + input[end..];
      EntriesAreThoseCounted(input[4..end], input[end..], count, x);
    }
  }

  /** What `encode_ranges_wire` writes. */
  function RangesBytes(bs: seq<u64>): Bytes {
    ToLe(WireCount(bs), 4) + PairsBytes(bs)
  }

  lemma SplitsIntoFields(header: Bytes, pairs: Bytes, rest: Bytes, count: u32)
    requires header == ToLe(count, 4) && |pairs| == 16 * count
    ensures Negotiate(header + pairs + rest) == Some(Negotiated(Missing(UnionOf(pairs, count)), rest))
  {
    var input := header + pairs + rest;
    WidthValues();
    LeRoundTrip(count, 4);
    assert input[..4] == header;
    assert input[4..4 + 16 * count] == pairs;
    assert input[4 + 16 * count..] == rest;
  }

  /**
   A peer that sends the encoding of what it has, bounded and of fewer than 2^32 ranges, is sent exactly
   the chunks it does not have; what it sends afterwards stays unread.
   */
  lemma NegotiateInvertsEncoding(bs: seq<u64>, rest: Bytes)
    requires Canonical(bs) && |bs| % 2 == 0 && |bs| / 2 < 0x1_0000_0000
    ensures Negotiate(RangesBytes(bs) + rest) == Some(Negotiated(Missing(bs), rest))
    ensures forall x: nat :: Contains(Missing(bs), x) <==> !Contains(bs, x)
  {
    CountIsWhole(|bs|);
    PairsLength(bs);
    RangesRoundTripIff(bs);
    SplitsIntoFields(ToLe(WireCount(bs), 4), PairsBytes(bs), rest, WireCount(bs));
    forall x: nat
      ensures Contains(Missing(bs), x) <==> !Contains(bs, x)
    {
      MissingMeaning(bs, x);
    }
  }

  /** A whole request, from its first byte: the gate reads the header and leaves the transfer the ranges. */
  lemma WholeRequest(resource: Bytes, p: Permission, bs: seq<u64>, rest: Bytes)
    requires |resource| <= MAX_RESOURCE_ID_BYTES
    requires Canonical(bs) && |bs| % 2 == 0 && |bs| / 2 < 0x1_0000_0000
    ensures var parsed := ParseRequest(RequestBytes(resource, p) + RangesBytes(bs) + rest);
            && parsed.Request? && parsed.resource == resource && parsed.permission == p
            && Negotiate(parsed.rest) == Some(Negotiated(Missing(bs), rest))
            && forall x: nat :: Contains(Missing(bs), x) <==> !Contains(bs, x)
  {
    var input := RequestBytes(resource, p) + RangesBytes(bs) + rest;
    assert input == RequestBytes(resource, p) + (RangesBytes(bs) + rest);
    ParsesExactlyEncodings(input, resource, p, RangesBytes(bs) + rest);
    NegotiateInvertsEncoding(bs, rest);
  }

  // ---------------------------------------------------------------- the gate in front of this transfer

  lemma DecidedWithin(
    peer: Peer, resource: Bytes, listing: Result<Listing>, moments: seq<Moment>, all: seq<Moment>,
    asked: seq<Question>, granted: bool)
    requires Decided(peer, resource, listing, moments, asked, granted)
    requires forall m :: m in moments ==> m in all
    ensures Decided(peer, resource, listing, all, asked, granted)
  {
    forall q | q in asked
      ensures Truthful(q, peer, all)
    {
      assert Truthful(q, peer, moments);
    }
  }

  /** What `can_access` decided, if it was asked, and what was exported. */
  ghost predicate ServedBlob(
    peer: Peer, input: Bytes, listing: Result<Listing>, moments: seq<Moment>, log: Log, asked: seq<Question>,
    exported: Option<(Hash, seq<nat>)>)
  {
    match ParseRequest(input)
    case Request(resource, _, rest) =>
      && (log.transferSaid.Some? ==> Decided(peer, resource, listing, moments, asked, log.transferSaid.value))
      && exported == (if log.handedOver.Some? && |resource| == 32 && Negotiate(rest).Some?
                      then Some((resource, Negotiate(rest).value.missing)) else None)
    case _ => exported == None
  }

  /** The two checks: `has_permission`, and unless it says yes, `can_access`. */
  method DecideForBlob(world: World, peer: Peer, resource: Bytes, permission: Permission, listing: Result<Listing>)
    returns (log: Log, asked: seq<Question>)
    requires world.Valid()
    modifies world
    ensures world.Valid() && old(world.moments) <= world.moments
    ensures AskedTruly(log, peer, resource, permission, world.moments[|old(world.moments)|..])
    ensures log.handedOver == None
    ensures log.transferSaid.Some? <==> log.registrySaid.value.1 != Ok(true)
    ensures log.transferSaid.Some? ==>
              Decided(peer, resource, listing, world.moments[|old(world.moments)|..], asked, log.transferSaid.value)
  {
    ghost var start := |world.moments|;
    asked := [];
    world.OtherTasks();
    var granted := world.AskRegistry(peer, resource, permission);
    log := Log(Some((world.Present(), granted)), None, None);
    ghost var before := world.moments;
    assert world.Present() in world.moments[start..];
    if granted != Ok(true) {
      var allowed;
      allowed, asked := CanAccess(world, peer, resource, listing);
      log := log.(transferSaid := Some(allowed));
      assert world.moments[start..][..|before| - start] == before[start..];
      assert world.moments[start..][|before| - start..] == world.moments[|before|..];
      DecidedWithin(peer, resource, listing, world.moments[|before|..], world.moments[start..], asked, allowed);
    }
  }

  /** `RingGate<R, FsTransfer<R>>::handle_request`. */
  method HandleBlobRequest(world: World, peer: Peer, listing: Result<Listing>, recv: RecvStream, send: SendStream)
    returns (ok: bool, log: Log, asked: seq<Question>, exported: Option<(Hash, seq<nat>)>)
    requires world.Valid()
    requires send.sent == [] && !send.finished
    modifies world, recv, send
    ensures world.Valid() && old(world.moments) <= world.moments
    ensures var moments := world.moments[|old(world.moments)|..];
      && Handled(peer, old(recv.pending), moments, log, send.sent, send.finished, ok)
      && ServedBlob(peer, old(recv.pending), listing, moments, log, asked, exported)
  {
    log, asked, exported := Log(None, None, None), [], None;

    var header := ReadRequest(recv);
    if header.Err? {
      ok := false;
      return;
    }
    var (resource, operation) := header.value;
    var permission := ParseOperation(operation);
    if permission.Err? {
      ok := Refuse(send);
      return;
    }
    log, asked := DecideForBlob(world, peer, resource, permission.value, listing);
    if !Approved(log) {
      ok := Refuse(send);
      return;
    }
    ok := send.WriteAll(ALLOWED);
    if !ok {
      return;
    }
    log := log.(handedOver := Some(recv.pending));
    ok, exported := Transfer(resource, send, recv);
    if ok {
      send.Finish();
    }
  }

  /**
   Over every stream, and whatever changes in between: a transfer starts only for a peer that, while the
   request was handled, held what it asked for, or could read the blob, or a collection that refers to it.
   */
  lemma ServedOnlyWithAccess(
    peer: Peer, input: Bytes, listing: Result<Listing>, moments: seq<Moment>, log: Log, asked: seq<Question>,
    exported: Option<(Hash, seq<nat>)>, sent: Bytes, finished: bool, ok: bool)
    requires Handled(peer, input, moments, log, sent, finished, ok)
    requires ServedBlob(peer, input, listing, moments, log, asked, exported)
    requires log.handedOver.Some?
    ensures exists resource, p ::
              && |resource| <= MAX_RESOURCE_ID_BYTES
              && input == RequestBytes(resource, p) + log.handedOver.value
              && (|| HeldAt(moments, peer, resource, p)
                  || HeldAt(moments, peer, resource, Read)
                  || HeldThroughCollection(moments, peer, listing, resource))
  {
    var Request(resource, p, rest) := ParseRequest(input);
    ParsesExactlyEncodings(input, resource, p, rest);
    if log.transferSaid == Some(true) {
      AccessIsHeld(peer, resource, listing, moments, asked, true);
    } else {
      var m := log.registrySaid.value.0;
      assert m in moments && HasPermission(m.registry, peer, resource, p, m.now);
      assert HeldAt(moments, peer, resource, p);
    }
  }

  /** The peer may read a listed collection that refers to the resource. */
  ghost predicate ReadsCollection(s: Registry, peer: Peer, listing: Result<Listing>, resource: Bytes, now: Time) {
    && |resource| == 32 && listing.Ok?
    && exists c :: c in Collections(listing.value) && Refers(c.bytes, resource)
        && HasPermission(s, peer, c.hash, Read, now)
  }

  /** On the raw listing and the raw bytes of the blobs. */
  lemma ReadsCollectionIff(s: Registry, peer: Peer, tags: Listing, resource: Bytes, now: Time)
    ensures ReadsCollection(s, peer, Ok(tags), resource, now) <==>
            |resource| == 32 && exists i: nat, c :: CollectionAt(tags, i, c) && ReadsFrom(s, peer, c, resource, now)
  {
    forall c
      ensures c in Collections(tags) <==> exists i: nat :: CollectionAt(tags, i, c)
      ensures Refers(c.bytes, resource) && HasPermission(s, peer, c.hash, Read, now) <==>
              ReadsFrom(s, peer, c, resource, now)
    {
      CollectionsMeaning(tags, c);
      if c.bytes.Ok? {
        RefersIff(c.bytes.value, resource);
      }
    }
  }

  /** The peer may read the collection, and some 32 bytes of it, in whole steps, are the resource. */
  ghost predicate ReadsFrom(s: Registry, peer: Peer, c: Tag, resource: Bytes, now: Time) {
    && HasPermission(s, peer, c.hash, Read, now)
    && c.bytes.Ok? && |c.bytes.value| % 32 == 0
    && exists i :: 0 <= i && 32 * i + 32 <= |c.bytes.value| && c.bytes.value[32 * i..32 * i + 32] == resource
  }

  ghost predicate Unchanging(moments: seq<Moment>, s: Registry, now: Time) {
    forall m :: m in moments ==> m == Moment(s, now)
  }

  /** The registry answered, and the first byte went out. */
  ghost predicate Answered(log: Log, asked: seq<Question>, sent: Bytes) {
    && log.registrySaid.Some? && log.registrySaid.value.1.Ok?
    && (forall q :: q in asked ==> q.answer.Ok?)
    && sent != []
  }

  lemma AccessIff(
    peer: Peer, resource: Bytes, listing: Result<Listing>, moments: seq<Moment>, asked: seq<Question>, granted: bool,
    s: Registry, now: Time)
    requires Decided(peer, resource, listing, moments, asked, granted)
    requires Unchanging(moments, s, now) && forall q :: q in asked ==> q.answer.Ok?
    ensures granted <==> HasPermission(s, peer, resource, Read, now) || ReadsCollection(s, peer, listing, resource, now)
  {
    assert Truthful(asked[0], peer, moments);
    if granted {
      AccessIsHeld(peer, resource, listing, moments, asked, granted);
    } else if ReadsCollection(s, peer, listing, resource, now) {
      var c :| c in Collections(listing.value) && Refers(c.bytes, resource)
          && HasPermission(s, peer, c.hash, Read, now);
      HeldIsAccess(peer, resource, listing, moments, asked, granted, c);
    }
  }

  /**
   Who is served, exactly: while nothing changes and registry and network answer, a request is handed to
   the transfer iff the peer has what it asked for, or `Read` on the blob, or on a collection that refers to it.
   */
  lemma ServedIff(
    peer: Peer, resource: Bytes, p: Permission, rest: Bytes, listing: Result<Listing>, moments: seq<Moment>, log: Log,
    asked: seq<Question>, exported: Option<(Hash, seq<nat>)>, sent: Bytes, finished: bool, ok: bool,
    s: Registry, now: Time)
    requires |resource| <= MAX_RESOURCE_ID_BYTES
    requires var input := RequestBytes(resource, p) + rest;
      Handled(peer, input, moments, log, sent, finished, ok)
          && ServedBlob(peer, input, listing, moments, log, asked, exported)
    requires Unchanging(moments, s, now) && Answered(log, asked, sent)
    ensures log.handedOver.Some? <==>
            || HasPermission(s, peer, resource, p, now)
            || HasPermission(s, peer, resource, Read, now)
            || ReadsCollection(s, peer, listing, resource, now)
  {
    ParsesExactlyEncodings(RequestBytes(resource, p) + rest, resource, p, rest);
    if log.transferSaid.Some? {
      AccessIff(peer, resource, listing, moments, asked, log.transferSaid.value, s, now);
    }
  }

  /**
   "A resource with no ring associations is always denied" holds of such a request exactly when the peer can
   read no listed collection that refers to the resource.
   */
  lemma UnassociatedServedIff(
    peer: Peer, resource: Bytes, p: Permission, rest: Bytes, listing: Result<Listing>, moments: seq<Moment>, log: Log,
    asked: seq<Question>, exported: Option<(Hash, seq<nat>)>, sent: Bytes, finished: bool, ok: bool,
    s: Registry, now: Time)
    requires |resource| <= MAX_RESOURCE_ID_BYTES && resource !in s.resources
    requires var input := RequestBytes(resource, p) + rest;
      Handled(peer, input, moments, log, sent, finished, ok)
      && ServedBlob(peer, input, listing, moments, log, asked, exported)
    requires Unchanging(moments, s, now) && Answered(log, asked, sent)
    ensures log.handedOver.Some? <==> ReadsCollection(s, peer, listing, resource, now)
  {
    ServedIff(peer, resource, p, rest, listing, moments, log, asked, exported, sent, finished, ok, s, now);
  }

  /**
   "A peer without the required permission never reaches the `Transfer`" holds of a request exactly when the
   peer has the permission, or neither `Read` on the blob nor on a collection that refers to it: `can_access`
   is not told what is asked for.
   */
  lemma PermissionRequiredIff(
    peer: Peer, resource: Bytes, p: Permission, rest: Bytes, listing: Result<Listing>, moments: seq<Moment>, log: Log,
    asked: seq<Question>, exported: Option<(Hash, seq<nat>)>, sent: Bytes, finished: bool, ok: bool,
    s: Registry, now: Time)
    requires |resource| <= MAX_RESOURCE_ID_BYTES
    requires var input := RequestBytes(resource, p) + rest;
      Handled(peer, input, moments, log, sent, finished, ok)
          && ServedBlob(peer, input, listing, moments, log, asked, exported)
    requires Unchanging(moments, s, now) && Answered(log, asked, sent)
    ensures (log.handedOver.Some? ==> HasPermission(s, peer, resource, p, now)) <==>
            || HasPermission(s, peer, resource, p, now)
            || (!HasPermission(s, peer, resource, Read, now) && !ReadsCollection(s, peer, listing, resource, now))
  {
    ServedIff(peer, resource, p, rest, listing, moments, log, asked, exported, sent, finished, ok, s, now);
  }

  /** `resource` is open to everybody's `Read`, and nobody has `Write` on anything. */
  function OpenResource(resource: Bytes): Registry {
    Registry(map[OPEN_RING_NAME := []], map[resource := [Entry(OPEN_RING_NAME, {Read})]])
  }

  lemma OpenResourceGrantsRead(resource: Bytes, peer: Peer, p: Permission, now: Time)
    ensures WellFormed(OpenResource(resource))
    ensures HasPermission(OpenResource(resource), peer, resource, p, now) <==> p == Read
  {
    var s := OpenResource(resource);
    InitialIsWellFormed();
    forall ring
      ensures GoodRing(s, ring)
    {
      assert GoodRing(INITIAL, ring);
    }
    forall r
      ensures GoodResource(s, r)
    {
    }
    assert Grants(s, s.resources[resource][0], peer, Read, now);
  }

  /** A `Write` request that is served to a peer without `Write`, on a resource open to everybody's `Read`. */
  lemma WriteServedToReader(peer: Peer, resource: Bytes, rest: Bytes, now: Time)
    requires |resource| <= MAX_RESOURCE_ID_BYTES
    ensures var m := Moment(OpenResource(resource), now);
      var log := Log(Some((m, Ok(false))), Some(true), Some(rest));
      && WellFormed(m.registry)
      && !HeldAt([m], peer, resource, Write)
      && Handled(peer, RequestBytes(resource, Write) + rest, [m], log, ALLOWED, true, true)
      && forall listing :: Decided(peer, resource, listing, [m], [Question(resource, m, Ok(true))], true)
  {
    var m, input := Moment(OpenResource(resource), now), RequestBytes(resource, Write) + rest;
    OpenResourceGrantsRead(resource, peer, Read, now);
    OpenResourceGrantsRead(resource, peer, Write, now);
    ParsesExactlyEncodings(input, resource, Write, rest);
    assert Truthful(Question(resource, m, Ok(true)), peer, [m]);
  }
}
