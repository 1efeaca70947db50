/**
 The values every part of the registry shares: bytes, ring names, peer ids, clock
 readings, permissions, and the error variants of src/error.rs.
 */
module Types {

  type byte = n: int | 0 <= n < 256

  type Bytes = seq<byte>

  /** A ring name, as its UTF-8 bytes. */
  type Name = Bytes

  type Bytes32 = bs: Bytes | |bs| == 32 witness seq(32, _ => 0)

  /** A peer id: the bytes of an Ed25519 public key. */
  type Peer = Bytes32

  /** A BLAKE3 hash. */
  type Hash = Bytes32

  /** A display label. */
  type Label = string

  const NANOS_PER_SEC: int := 1_000_000_000
  const MAX_SECS: int := 0x7FFF_FFFF_FFFF_FFFF
  const MIN_TIME: int := (-MAX_SECS - 1) * NANOS_PER_SEC
  const MAX_TIME: int := MAX_SECS * NANOS_PER_SEC + NANOS_PER_SEC - 1

  /** A `SystemTime`: nanoseconds since the UNIX epoch, seconds held in an `i64`. */
  type Time = t: int | MIN_TIME <= t <= MAX_TIME

  function Later(a: Time, b: Time): Time {
    if a <= b then b else a
  }

  datatype Permission = Read | Write | Delete

  function Rank(p: Permission): nat {
    match p
    case Read => 0
    case Write => 1
    case Delete => 2
  }

  /** Listed in the order of the declaration, none twice. */
  predicate Increasing(permissions: seq<Permission>) {
    forall i, j :: 0 <= i < j < |permissions| ==> Rank(permissions[i]) < Rank(permissions[j])
  }

  function InOrder(permissions: set<Permission>): seq<Permission> {
    (if Read in permissions then [Read] else [])
    + (if Write in permissions then [Write] else [])
    + (if Delete in permissions then [Delete] else [])
  }

  lemma InOrderElements(permissions: set<Permission>)
    ensures Elements(InOrder(permissions)) == permissions
  {
    forall p: Permission
      ensures p in permissions <==> p in InOrder(permissions)
    {
      match p
      case Read =>
      case Write =>
      case Delete =>
    }
  }

  lemma {:induction false} RankAtLeast(permissions: seq<Permission>, i: nat)
    requires Increasing(permissions) && i < |permissions|
    ensures i <= Rank(permissions[i]) <= 2
  {
    if i > 0 {
      RankAtLeast(permissions, i - 1);
    }
  }

  /** The permissions in an increasing list, one by one. */
  lemma IncreasingCases(permissions: seq<Permission>)
    requires Increasing(permissions)
    ensures || permissions == [] || permissions == [Read] || permissions == [Write] || permissions == [Delete]
            || permissions == [Read, Write] || permissions == [Read, Delete] || permissions == [Write, Delete]
            || permissions == [Read, Write, Delete]
  {
    if permissions != [] {
      RankAtLeast(permissions, |permissions| - 1);
      if |permissions| == 1 {
        assert permissions == [permissions[0]];
      } else if |permissions| == 2 {
        assert permissions == [permissions[0], permissions[1]];
      } else {
        assert permissions == [permissions[0], permissions[1], permissions[2]];
      }
    }
  }

  lemma InOrderOf(permissions: seq<Permission>)
    ensures InOrder(Elements(permissions)) ==
            (if Read in permissions then [Read] else [])
            + (if Write in permissions then [Write] else [])
            + (if Delete in permissions then [Delete] else [])
  {
    assert forall p :: p in permissions <==> p in Elements(permissions);
  }

  /** A list is its own set in order exactly when it is increasing. */
  lemma InOrderIff(permissions: seq<Permission>)
    ensures InOrder(Elements(permissions)) == permissions <==> Increasing(permissions)
    ensures Rank(Read) < Rank(Write) < Rank(Delete)
  {
    InOrderOf(permissions);
    if Increasing(permissions) {
      IncreasingCases(permissions);
    }
  }

  datatype Error =
    | RingNameEmpty
    | RingNameInvalidChars
    | RingNameReserved(name: Name)
    | RingAlreadyExists(name: Name)
    | RingNotFound(name: Name)
    | ResourceIdTooLong(length: nat)
    | UnknownStatusByte(status: byte)
    | UnknownOperationByte(operation: byte)
    | OpenRingReadOnly
    | EmptyPermissionSet
    | Storage

  datatype Option<+T> = None | Some(value: T)

  datatype Result<+T> = Ok(value: T) | Err(error: Error)

  function Get<K, V>(m: map<K, V>, k: K): Option<V> {
    if k in m then Some(m[k]) else None
  }

  lemma SameLookupsSameMap<K, V>(m: map<K, V>, m': map<K, V>)
    requires forall k :: Get(m, k) == Get(m', k)
    ensures m == m'
  {
    forall k
      ensures k in m <==> k in m'
    {
      assert Get(m, k) == Get(m', k);
    }
    forall k | k in m
      ensures m[k] == m'[k]
    {
      assert Get(m, k) == Get(m', k);
    }
  }

  lemma MapUpdated<K, V>(m: map<K, V>, m': map<K, V>, k: K, v: V)
    requires m'.Keys == m.Keys + {k} && m'[k] == v
    requires forall j :: j in m && j != k ==> m'[j] == m[j]
    ensures m' == m[k := v]
  {
  }

  lemma NothingRemoved<K, V>(m: map<K, V>, ks: set<K>)
    requires m.Keys !! ks
    ensures m - ks == m
  {
  }

  function Elements<T>(xs: seq<T>): set<T> {
    set x | x in xs
  }

  ghost predicate NoDuplicates<T>(xs: seq<T>) {
    forall i, j :: 0 <= i < j < |xs| ==> xs[i] != xs[j]
  }

  /** The entries of a hash table or hash set, in whatever order its iterator yields them. */
  method Iterate<T(==)>(s: set<T>) returns (xs: seq<T>)
    ensures NoDuplicates(xs)
    ensures Elements(xs) == s
  {
    xs := [];
    var todo := s;
    while todo != {}
      invariant todo <= s
      invariant NoDuplicates(xs)
      invariant Elements(xs) == s - todo
      decreases todo
    {
      var x :| x in todo;
      assert x !in Elements(xs);
      assert Elements(xs + [x]) == Elements(xs) + {x};
      xs, todo := xs + [x], todo - {x};
    }
  }
}
