/** The request a peer sends to the gate: src/protocol/mod.rs. */
module Protocol {
  import opened Types
  import opened Encoding

  const MAX_RESOURCE_ID_BYTES: nat := 256

  datatype Status = Denied | Allowed

  function StatusByte(s: Status): byte {
    match s
    case Denied => 0x00
    case Allowed => 0x01
  }

  function StatusOf(b: byte): (r: Result<Status>)
    ensures r.Ok? <==> exists s :: StatusByte(s) == b
    ensures r.Ok? ==> StatusByte(r.value) == b
    ensures r == Ok(Denied) <==> b == 0
    ensures r == Ok(Allowed) <==> b == 1
    ensures b > 1 ==> r == Err(UnknownStatusByte(b))
  {
    if b == 0x00 then assert StatusByte(Denied) == b; Ok(Denied)
    else if b == 0x01 then assert StatusByte(Allowed) == b; Ok(Allowed)
    else Err(UnknownStatusByte(b))
  }

  function EncodeOperation(p: Permission): byte {
    match p
    case Read => 0x01
    case Write => 0x02
    case Delete => 0x03
  }

  function ParseOperation(b: byte): (r: Result<Permission>)
    ensures r.Ok? <==> exists p :: EncodeOperation(p) == b
    ensures r.Ok? ==> EncodeOperation(r.value) == b
    ensures r == Ok(Read) <==> b == 1
    ensures r == Ok(Write) <==> b == 2
    ensures r == Ok(Delete) <==> b == 3
    ensures b == 0 || b > 3 ==> r == Err(UnknownOperationByte(b))
  {
    if b == 0x01 then assert EncodeOperation(Read) == b; Ok(Read)
    else if b == 0x02 then assert EncodeOperation(Write) == b; Ok(Write)
    else if b == 0x03 then assert EncodeOperation(Delete) == b; Ok(Delete)
    else Err(UnknownOperationByte(b))
  }

  lemma OperationRoundTrip(p: Permission)
    ensures ParseOperation(EncodeOperation(p)) == Ok(p)
  {
    assert ParseOperation(EncodeOperation(p)).Ok?;
  }

  function LeU16(b0: byte, b1: byte): nat {
    b0 as int + 256 * (b1 as int)
  }

  /** `[u16-le length][resource id][operation]` */
  function RequestBytes(resource: Bytes, p: Permission): Bytes
    requires |resource| < 0x1_0000
  {
    U16ToLe(|resource|) + resource + [EncodeOperation(p)]
  }

  method EncodeRequest(resource: Bytes, p: Permission) returns (r: Result<Bytes>)
    ensures |resource| > 256 ==> r == Err(ResourceIdTooLong(|resource|))
    ensures |resource| <= 256 ==> r == Ok(RequestBytes(resource, p))
    ensures |resource| <= 256 ==>
              && |r.value| == |resource| + 3
              && r.value[0] == |resource| % 256 && r.value[1] == |resource| / 256
              && r.value[2..|resource| + 2] == resource
              && r.value[|resource| + 2] == match p case Read => 1 case Write => 2 case Delete => 3
  {
    if |resource| > MAX_RESOURCE_ID_BYTES {
      return Err(ResourceIdTooLong(|resource|));
    }
    var len := |resource|;
    var out: Bytes := [];
    out := out + U16ToLe(len);
    out := out + resource;
    out := out + [EncodeOperation(p)];
    assert out == RequestBytes(resource, p);
    r := Ok(out);
  }

  /** What the first bytes of a stream are, to the gate. */
  datatype Parsed =
    | Short
    | TooLong(length: nat)
    | UnknownOperation(operation: byte, rest: Bytes)
    | Request(resource: Bytes, permission: Permission, rest: Bytes)

  function ParseRequest(input: Bytes): Parsed {
    if |input| < 2 then Short
    else
      var len := LeU16(input[0], input[1]);
      if len > MAX_RESOURCE_ID_BYTES then TooLong(len)
      else if |input| < 2 + len + 1 then Short
      else
        match ParseOperation(input[2 + len])
        case Ok(p) => Request(input[2..2 + len], p, input[2 + len + 1..])
        case Err(_) => UnknownOperation(input[2 + len], input[2 + len + 1..])
  }

  lemma ParsesEncoding(resource: Bytes, p: Permission, rest: Bytes)
    requires |resource| <= MAX_RESOURCE_ID_BYTES
    ensures ParseRequest(RequestBytes(resource, p) + rest) == Request(resource, p, rest)
  {
    var input := RequestBytes(resource, p) + rest;
    assert LeU16(input[0], input[1]) == |resource|;
    assert input[2..2 + |resource|] == resource;
    assert input[2 + |resource|] == EncodeOperation(p);
    assert input[2 + |resource| + 1..] == rest;
    OperationRoundTrip(p);
  }

  lemma LengthBytes(b0: byte, b1: byte)
    ensures LeU16(b0, b1) % 256 == b0 && LeU16(b0, b1) / 256 == b1
  {
  }

  lemma SplitAtOperation(input: Bytes, n: nat)
    requires |input| >= 2 + n + 1
    ensures input == [input[0], input[1]] + input[2..2 + n] + [input[2 + n]] + input[2 + n + 1..]
  {
  }

  lemma ParsesOnlyEncodings(input: Bytes)
    requires ParseRequest(input).Request?
    ensures var Request(resource, p, rest) := ParseRequest(input);
      |resource| <= MAX_RESOURCE_ID_BYTES && input == RequestBytes(resource, p) + rest
  {
    var n := LeU16(input[0], input[1]);
    LengthBytes(input[0], input[1]);
    SplitAtOperation(input, n);
  }

  /**
   Framing is exact: the gate makes a request of a stream precisely when the stream starts with the
   encoding of that request, and what follows it is left for the transfer.
   */
  lemma ParsesExactlyEncodings(input: Bytes, resource: Bytes, p: Permission, rest: Bytes)
    ensures ParseRequest(input) == Request(resource, p, rest) <==>
            |resource| <= MAX_RESOURCE_ID_BYTES && input == RequestBytes(resource, p) + rest
  {
    if |resource| <= MAX_RESOURCE_ID_BYTES {
      ParsesEncoding(resource, p, rest);
    }
    if ParseRequest(input) == Request(resource, p, rest) {
      ParsesOnlyEncodings(input);
    }
  }

  /** No encoded request is a prefix of another one, or of anything that parses differently. */
  lemma RequestsArePrefixFree(
    resource: Bytes, p: Permission, rest: Bytes, resource': Bytes, p': Permission, rest': Bytes)
    requires |resource| <= MAX_RESOURCE_ID_BYTES && |resource'| <= MAX_RESOURCE_ID_BYTES
    requires RequestBytes(resource, p) + rest == RequestBytes(resource', p') + rest'
    ensures resource == resource' && p == p' && rest == rest'
  {
    ParsesExactlyEncodings(RequestBytes(resource, p) + rest, resource, p, rest);
    ParsesExactlyEncodings(RequestBytes(resource, p) + rest, resource', p', rest');
  }

  /** The gate's reading of any stream, byte by byte. */
  lemma ParseRequestMeaning(input: Bytes)
    ensures |input| < 2 ==> ParseRequest(input) == Short
    ensures |input| >= 2 ==>
              var len := input[0] as int + 256 * (input[1] as int);
              && (len > 256 ==> ParseRequest(input) == TooLong(len))
              && (len <= 256 && |input| < len + 3 ==> ParseRequest(input) == Short)
              && (len <= 256 && |input| >= len + 3 ==>
                    var resource, operation, rest := input[2..len + 2], input[len + 2], input[len + 3..];
                    && (operation == 1 ==> ParseRequest(input) == Request(resource, Read, rest))
                    && (operation == 2 ==> ParseRequest(input) == Request(resource, Write, rest))
                    && (operation == 3 ==> ParseRequest(input) == Request(resource, Delete, rest))
                    && (operation == 0 || operation > 3 ==> ParseRequest(input) == UnknownOperation(operation, rest)))
  {
  }
}
