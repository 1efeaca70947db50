/** The two helpers of src/registry.rs both backends call, on permission lists as callers give them. */
module Associations {
  import opened Types
  import opened Ring
  import opened RegistrySpec

  /** Permissions as a list: the order and the repetitions are the caller's. */
  type Listed = Entry<seq<Permission>>

  function AsSet(e: Listed): Association {
    Entry(e.ring, Elements(e.permissions))
  }

  function AsSets(es: seq<Listed>): (r: seq<Association>)
    ensures |r| == |es|
    ensures forall i :: 0 <= i < |es| ==> r[i] == AsSet(es[i])
  {
    seq(|es|, i requires 0 <= i < |es| => AsSet(es[i]))
  }

  /** Each permission list is its set, in order. */
  predicate InListedOrder(es: seq<Listed>) {
    forall i :: 0 <= i < |es| ==> es[i].permissions == InOrder(Elements(es[i].permissions))
  }

  /** Lists in order are determined by their sets; lists of the same sets are the same iff all are increasing. */
  lemma SameListsIff(es: seq<Listed>, es': seq<Listed>)
    requires AsSets(es) == AsSets(es') && InListedOrder(es')
    ensures es == es' <==> forall i :: 0 <= i < |es| ==> Increasing(es[i].permissions)
  {
    assert |es| == |AsSets(es)| == |es'|;
    forall i | 0 <= i < |es|
      ensures es[i] == es'[i] <==> Increasing(es[i].permissions)
    {
      assert AsSets(es)[i] == AsSets(es')[i];
      InOrderIff(es[i].permissions);
    }
  }

  function ResourceSets(resources: map<Bytes, seq<Listed>>): map<Bytes, seq<Association>> {
    map r | r in resources :: AsSets(resources[r])
  }

  /** `validate_ring_permissions` sees only which permissions are listed. */
  function ValidateRingPermissions(ring: Name, permissions: seq<Permission>): (r: Result<()>)
    ensures r == ValidatePermissions(ring, Elements(permissions))
    ensures r == Err(EmptyPermissionSet) <==> permissions == []
    ensures r == Err(OpenRingReadOnly) <==> ring == OPEN_RING_NAME && exists p :: p in permissions && p != Read
    ensures r.Ok? <==> permissions != [] && (ring == OPEN_RING_NAME ==> forall p :: p in permissions ==> p == Read)
  {
    if permissions == [] then
      Err(EmptyPermissionSet)
    else if ring == OPEN_RING_NAME && exists p | p in permissions :: p != Read then
      var p :| p in permissions && p != Read;
      assert p in Elements(permissions);
      Err(OpenRingReadOnly)
    else
      assert permissions[0] in Elements(permissions);
      assert ring == OPEN_RING_NAME ==> Elements(permissions) == {Read};
      Ok(())
  }

  method ComputeResourceRings(existing: seq<Listed>, ring: Name, permissions: seq<Permission>)
    returns (updated: seq<Listed>)
    ensures updated == Associate(existing, ring, permissions)
  {
    var i := 0;
    while i < |existing| && existing[i].ring != ring
      invariant i <= |existing|
      invariant forall j :: 0 <= j < i ==> existing[j].ring != ring
    {
      i := i + 1;
    }
    assert i == FindRing(existing, ring);
    if i < |existing| {
      updated := existing[i := Entry(ring, permissions)];
    } else {
      updated := existing + [Entry(ring, permissions)];
    }
  }

  /** `list_rings`: the open ring first, then every other stored ring. */
  method ListNames(stored: set<Name>) returns (names: seq<Name>)
    requires OPEN_RING_NAME in stored
    requires forall name :: name in stored ==> ValidName(name)
    ensures NoDuplicates(names) && Elements(names) == stored
    ensures names != [] && names[0] == OPEN_RING_NAME
  {
    names := [OPEN_RING_NAME];
    var keys := Iterate(stored);
    for i := 0 to |keys|
      invariant names != [] && names[0] == OPEN_RING_NAME
      invariant NoDuplicates(names)
      invariant Elements(names) == {OPEN_RING_NAME} + Elements(keys[..i])
    {
      var name := keys[i];
      assert name in Elements(keys) && name !in keys[..i];
      assert Elements(keys[..i + 1]) == Elements(keys[..i]) + {name};
      if name != OPEN_RING_NAME {
        var ring := NewRing(name);
        assert name !in Elements(names);
        assert Elements(names + [ring.value]) == Elements(names) + {name};
        names := names + [ring.value];
      }
    }
    assert keys[..|keys|] == keys;
  }

  lemma FindRingInSets(es: seq<Listed>, ring: Name)
    ensures FindRing(AsSets(es), ring) == FindRing(es, ring)
  {
    var i, i' := FindRing(es, ring), FindRing(AsSets(es), ring);
    assert i < |es| ==> AsSets(es)[i].ring == ring;
    assert i' < |es| ==> es[i'].ring == ring;
  }

  /** Associating on lists is associating on sets. */
  lemma AssociateAsSets(es: seq<Listed>, ring: Name, permissions: seq<Permission>)
    ensures AsSets(Associate(es, ring, permissions)) == Associate(AsSets(es), ring, Elements(permissions))
  {
    FindRingInSets(es, ring);
  }
}
