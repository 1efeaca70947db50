/**
 Schema migrations: src/backends/redb/migrations.rs, and `RedbRegistry::open`, which runs them.

 Every step is one transaction. The functions say what each transaction makes of the tables; the
 methods, which loop over rows in any order, are proved against them.
 */
module Migrations {
  import opened Types
  import opened Ring
  import opened Encoding
  import opened RedbCodec
  import opened RedbTables
  import D = Database

  const SCHEMA_VERSION_KEY: string := "schema_version"
  const CURRENT_VERSION: u32 := 3
  const READ_BIT: bv8 := 0x01

  const OPENED_TABLES: set<TableName> := {RingsTable, ResourceRingsTable, LabelsTable, ExpiriesTable, PermsTable}

  // ---------------------------------------------------------------- what the transactions do

  function ReadVersion(t: Tables): u32 {
    if MetaTable in t.present && SCHEMA_VERSION_KEY in t.meta then t.meta[SCHEMA_VERSION_KEY] else 0
  }

  function WithVersion(t: Tables, version: u32): Tables {
    t.(present := t.present + {MetaTable}, meta := t.meta[SCHEMA_VERSION_KEY := version])
  }

  /** The first transaction of `open`: every table exists, and the open ring does. */
  function Bootstrapped(t: Tables): Tables {
    t.(present := t.present + OPENED_TABLES,
       rings := if OPEN_RING_NAME in t.rings then t.rings else t.rings[OPEN_RING_NAME := EncodeChunks([])])
  }

  /** The permission keys of the rings of one resource. */
  function PermKeysOf(resource: Bytes, row: Bytes): set<Bytes> {
    set n | n in DecodeRingNames(row) :: PermKey(resource, n)
  }

  /** The permission keys of every association there is. */
  function AssociationKeys(resourceRings: map<Bytes, Bytes>, resources: set<Bytes>): set<Bytes> {
    set r, b | r in resources && r in resourceRings && b in PermKeysOf(r, resourceRings[r]) :: b
  }

  /** `perms` with a `Read` row for each of `keys` that has none. */
  function Backfilled(perms: map<Bytes, bv8>, keys: set<Bytes>): map<Bytes, bv8> {
    map b | b in perms.Keys + keys :: if b in perms then perms[b] else READ_BIT
  }

  function V0ToV1(t: Tables): Tables {
    WithVersion(t.(present := t.present + {ResourceRingsTable, PermsTable},
                   perms := Backfilled(t.perms, AssociationKeys(t.resourceRings, t.resourceRings.Keys))), 1)
  }

  function NicknameRows(t: Tables): map<Bytes, Label> {
    if NicknamesTable in t.present then t.nicknames else map[]
  }

  function V1ToV2(t: Tables): Tables {
    var rows := NicknameRows(t);
    var copied := if rows != map[] then t.(present := t.present + {LabelsTable}, labels := t.labels + rows) else t;
    WithVersion(copied.(present := copied.present - {NicknamesTable}, nicknames := map[]), 2)
  }

  function V2ToV3(t: Tables): Tables {
    WithVersion(t, 3)
  }

  /** The step that leaves version `v` behind. */
  function Upgrade(t: Tables, v: nat): Tables
    requires v < 3
  {
    if v == 0 then V0ToV1(t) else if v == 1 then V1ToV2(t) else V2ToV3(t)
  }

  /** What `migrate` commits, one after another, on tables it found at version `v`. */
  function StepsFrom(t: Tables, v: nat): seq<Tables>
    decreases 3 - v
  {
    if v >= 3 then [] else [Upgrade(t, v)] + StepsFrom(Upgrade(t, v), v + 1)
  }

  function Last(t: Tables, ts: seq<Tables>): Tables {
    if ts == [] then t else ts[|ts| - 1]
  }

  function Migrated(t: Tables): Tables {
    Last(t, StepsFrom(t, ReadVersion(t)))
  }

  /** What an `open` that is not cut off commits. */
  function OpenCommits(t: Tables): seq<Tables> {
    var b := Bootstrapped(t);
    [b] + StepsFrom(b, ReadVersion(b))
  }

  function Opened(t: Tables): Tables {
    Last(t, OpenCommits(t))
  }

  /** What an `open` that is cut off after `k` commits leaves. */
  function CutOpen(t: Tables, k: nat): Tables {
    if k == 0 then t
    else if k > |OpenCommits(t)| then Opened(t)
    else OpenCommits(t)[k - 1]
  }

  function Attempts(t: Tables, cuts: seq<nat>): Tables
    decreases |cuts|
  {
    if cuts == [] then t else Attempts(CutOpen(t, cuts[0]), cuts[1..])
  }

  // ---------------------------------------------------------------- the steps, one by one

  lemma StepsUnfold(t: Tables)
    ensures StepsFrom(t, 2) == [V2ToV3(t)]
    ensures StepsFrom(t, 1) == [V1ToV2(t), V2ToV3(V1ToV2(t))]
    ensures StepsFrom(t, 0) == [V0ToV1(t), V1ToV2(V0ToV1(t)), V2ToV3(V1ToV2(V0ToV1(t)))]
  {
    OneStep(t);
    TwoSteps(t);
    ThreeSteps(t);
  }

  lemma ThreeSteps(t: Tables)
    ensures StepsFrom(t, 0) == [V0ToV1(t), V1ToV2(V0ToV1(t)), V2ToV3(V1ToV2(V0ToV1(t)))]
  {
    var t1 := V0ToV1(t);
    var rest := StepsFrom(t1, 1);
    TwoSteps(t1);
    assert StepsFrom(t, 0) == [t1] + rest;
  }

  lemma OneStep(t: Tables)
    ensures StepsFrom(t, 2) == [V2ToV3(t)]
  {
    assert StepsFrom(V2ToV3(t), 3) == [];
  }

  lemma TwoSteps(t: Tables)
    ensures StepsFrom(t, 1) == [V1ToV2(t), V2ToV3(V1ToV2(t))]
  {
    OneStep(V1ToV2(t));
  }

  /** What an uninterrupted `open` makes of each version. */
  lemma OpenedFrom(t: Tables)
    ensures var b := Bootstrapped(t);
      && (ReadVersion(t) == 0 ==> Opened(t) == V2ToV3(V1ToV2(V0ToV1(b))))
      && (ReadVersion(t) == 1 ==> Opened(t) == V2ToV3(V1ToV2(b)))
      && (ReadVersion(t) == 2 ==> Opened(t) == V2ToV3(b))
      && (ReadVersion(t) >= 3 ==> Opened(t) == b)
  {
    var b := Bootstrapped(t);
    assert ReadVersion(b) == ReadVersion(t);
    StepsUnfold(b);
  }

  lemma OpenIsBootstrapAndMigrate(t: Tables)
    ensures var b := Bootstrapped(t);
      OpenCommits(t) == [b] + StepsFrom(b, ReadVersion(b)) && Opened(t) == Migrated(b)
  {
  }

  // ---------------------------------------------------------------- crash safety

  predicate IsBootstrapped(t: Tables) {
    OPENED_TABLES <= t.present && OPEN_RING_NAME in t.rings
  }

  lemma BootstrapTwice(t: Tables)
    requires IsBootstrapped(t)
    ensures Bootstrapped(t) == t
  {
    assert t.present + OPENED_TABLES == t.present;
  }

  lemma WithVersionIsRead(t: Tables, version: u32)
    ensures ReadVersion(WithVersion(t, version)) == version
    ensures IsBootstrapped(t) ==> IsBootstrapped(WithVersion(t, version))
  {
  }

  lemma V0ToV1KeepsBootstrapped(t: Tables)
    ensures ReadVersion(V0ToV1(t)) == 1
    ensures IsBootstrapped(t) ==> IsBootstrapped(V0ToV1(t))
  {
    WithVersionIsRead(
      t.(present := t.present + {ResourceRingsTable, PermsTable},
         perms := Backfilled(t.perms, AssociationKeys(t.resourceRings, t.resourceRings.Keys))), 1);
  }

  lemma V1ToV2KeepsBootstrapped(t: Tables)
    ensures ReadVersion(V1ToV2(t)) == 2
    ensures IsBootstrapped(t) ==> IsBootstrapped(V1ToV2(t))
  {
    var rows := NicknameRows(t);
    var copied := if rows != map[] then t.(present := t.present + {LabelsTable}, labels := t.labels + rows) else t;
    WithVersionIsRead(copied.(present := copied.present - {NicknamesTable}, nicknames := map[]), 2);
  }

  lemma UpgradeKeepsBootstrapped(t: Tables, v: nat)
    requires v < 3
    ensures ReadVersion(Upgrade(t, v)) == v + 1
    ensures IsBootstrapped(t) ==> IsBootstrapped(Upgrade(t, v))
  {
    if v == 0 {
      V0ToV1KeepsBootstrapped(t);
    } else if v == 1 {
      V1ToV2KeepsBootstrapped(t);
    } else {
      WithVersionIsRead(t, 3);
    }
  }

  /** A database stopped at some commit goes on with exactly the commits that were still to come. */
  lemma {:induction false} StepsResume(t: Tables, v: nat, j: nat)
    requires j < |StepsFrom(t, v)|
    ensures var x := StepsFrom(t, v)[j];
      && ReadVersion(x) == v + j + 1
      && StepsFrom(x, v + j + 1) == StepsFrom(t, v)[j + 1..]
      && (IsBootstrapped(t) ==> IsBootstrapped(x))
    decreases j
  {
    var t' := Upgrade(t, v);
    UpgradeKeepsBootstrapped(t, v);
    assert StepsFrom(t, v)[1..] == StepsFrom(t', v + 1);
    if j > 0 {
      StepsResume(t', v + 1, j - 1);
    }
  }

  lemma {:induction false} StepsReachCurrent(t: Tables, v: nat)
    requires ReadVersion(t) >= v
    ensures ReadVersion(Last(t, StepsFrom(t, v))) >= 3 || (v >= 3 && StepsFrom(t, v) == [])
    ensures ReadVersion(t) == v ==> ReadVersion(Last(t, StepsFrom(t, v))) >= 3
    ensures IsBootstrapped(t) ==> IsBootstrapped(Last(t, StepsFrom(t, v)))
    decreases 3 - v
  {
    if v < 3 {
      UpgradeKeepsBootstrapped(t, v);
      StepsReachCurrent(Upgrade(t, v), v + 1);
    }
  }

  lemma OpenOfBootstrapped(t: Tables)
    requires IsBootstrapped(t)
    ensures OpenCommits(t) == [t] + StepsFrom(t, ReadVersion(t))
    ensures Opened(t) == Last(t, StepsFrom(t, ReadVersion(t)))
  {
    BootstrapTwice(t);
  }

  lemma OpenBootstrapsFirst(t: Tables)
    ensures Opened(Bootstrapped(t)) == Opened(t)
  {
    OpenOfBootstrapped(Bootstrapped(t));
  }

  lemma LastOfSuffix(t: Tables, ts: seq<Tables>, j: nat)
    requires j < |ts|
    ensures Last(ts[j], ts[j + 1..]) == Last(t, ts)
  {
  }

  /** Opening what `migrate` had committed so far ends where `migrate` would have. */
  lemma ResumeOpen(b: Tables, j: nat)
    requires IsBootstrapped(b) && j < |StepsFrom(b, ReadVersion(b))|
    ensures Opened(StepsFrom(b, ReadVersion(b))[j]) == Opened(b)
  {
    var steps := StepsFrom(b, ReadVersion(b));
    StepsResume(b, ReadVersion(b), j);
    OpenOfBootstrapped(b);
    OpenOfBootstrapped(steps[j]);
    LastOfSuffix(b, steps, j);
  }

  lemma CutThenOpen(t: Tables, k: nat)
    ensures Opened(CutOpen(t, k)) == Opened(t)
  {
    OpenBootstrapsFirst(t);
    if k > |OpenCommits(t)| {
      OpenedIsSettled(t);
    } else if k > 1 {
      ResumeOpen(Bootstrapped(t), k - 2);
    }
  }

  /** A completed `open` leaves tables that another `open`, or `migrate`, does not change. */
  lemma OpenedIsSettled(t: Tables)
    ensures ReadVersion(Opened(t)) >= CURRENT_VERSION
    ensures IsBootstrapped(Opened(t))
    ensures Migrated(Opened(t)) == Opened(t)
    ensures OpenCommits(Opened(t)) == [Opened(t)]
  {
    var b := Bootstrapped(t);
    OpenBootstrapsFirst(t);
    OpenOfBootstrapped(b);
    StepsReachCurrent(b, ReadVersion(b));
    OpenOfBootstrapped(Opened(t));
  }

  /**
   Migration is crash-safe: after any number of attempts cut off between commits, from any version,
   one completed `open` ends in exactly the tables an uninterrupted one would have produced.
   */
  lemma {:induction false} OpenIsCrashSafe(t: Tables, cuts: seq<nat>)
    ensures Opened(Attempts(t, cuts)) == Opened(t)
    ensures Migrated(Opened(Attempts(t, cuts))) == Opened(t)
    decreases |cuts|
  {
    if cuts == [] {
      OpenedIsSettled(t);
    } else {
      CutThenOpen(t, cuts[0]);
      OpenIsCrashSafe(CutOpen(t, cuts[0]), cuts[1..]);
    }
  }

  // ---------------------------------------------------------------- the transactions

  method BootstrapTransaction(db: D.Database)
    modifies db
    ensures db.committed == Bootstrapped(old(db.committed))
    ensures db.history == old(db.history) + [db.committed]
  {
    var write := db.committed;
    write := write.(present := write.present + OPENED_TABLES);
    if OPEN_RING_NAME !in write.rings {
      write := write.(rings := write.rings[OPEN_RING_NAME := EncodeChunks([])]);
    }
    db.Commit(write);
  }

  /** One resource of the backfill: a row for each of its rings that has none. */
  method BackfillResource(perms: map<Bytes, bv8>, resource: Bytes, names: seq<Name>) returns (filled: map<Bytes, bv8>)
    ensures filled == Backfilled(perms, set n | n in names :: PermKey(resource, n))
  {
    filled := perms;
    for i := 0 to |names|
      invariant filled == Backfilled(perms, set n | n in names[..i] :: PermKey(resource, n))
    {
      var key := BuildPermKey(resource, names[i]);
      assert names[..i + 1] == names[..i] + [names[i]];
      assert (set n | n in names[..i + 1] :: PermKey(resource, n))
          == (set n | n in names[..i] :: PermKey(resource, n)) + {key};
      BackfillTwice(perms, set n | n in names[..i] :: PermKey(resource, n), {key});
      BackfillOne(filled, key);
      if key !in filled {
        filled := filled[key := READ_BIT];
      }
    }
    assert names[..|names|] == names;
  }

  lemma BackfillTwice(perms: map<Bytes, bv8>, a: set<Bytes>, b: set<Bytes>)
    ensures Backfilled(Backfilled(perms, a), b) == Backfilled(perms, a + b)
  {
  }

  lemma BackfillOne(perms: map<Bytes, bv8>, key: Bytes)
    ensures Backfilled(perms, {key}) == if key in perms then perms else perms[key := READ_BIT]
  {
  }

  lemma AssociationKeysGrow(resourceRings: map<Bytes, Bytes>, resources: set<Bytes>, resource: Bytes)
    requires resource in resourceRings
    ensures AssociationKeys(resourceRings, resources + {resource}) ==
            AssociationKeys(resourceRings, resources) + PermKeysOf(resource, resourceRings[resource])
  {
  }

  method BackfillAll(perms: map<Bytes, bv8>, resourceRings: map<Bytes, Bytes>) returns (filled: map<Bytes, bv8>)
    ensures filled == Backfilled(perms, AssociationKeys(resourceRings, resourceRings.Keys))
  {
    filled := perms;
    var entries := Iterate(resourceRings.Keys);
    for i := 0 to |entries|
      invariant filled == Backfilled(perms, AssociationKeys(resourceRings, Elements(entries[..i])))
    {
      assert entries[i] in Elements(entries);
      assert Elements(entries[..i + 1]) == Elements(entries[..i]) + {entries[i]};
      AssociationKeysGrow(resourceRings, Elements(entries[..i]), entries[i]);
      BackfillTwice(perms, AssociationKeys(resourceRings, Elements(entries[..i])),
                    PermKeysOf(entries[i], resourceRings[entries[i]]));
      filled := BackfillResource(filled, entries[i], DecodeRingNames(resourceRings[entries[i]]));
    }
    assert entries[..|entries|] == entries;
  }

  method V0ToV1Transaction(db: D.Database)
    modifies db
    ensures db.committed == V0ToV1(old(db.committed))
    ensures db.history == old(db.history) + [db.committed]
  {
    var write := db.committed;
    write := write.(present := write.present + {ResourceRingsTable, PermsTable});
    var perms := BackfillAll(write.perms, write.resourceRings);
    write := write.(perms := perms);
    write := write.(present := write.present + {MetaTable}, meta := write.meta[SCHEMA_VERSION_KEY := 1]);
    db.Commit(write);
  }

  /** The rows of `seen` have been copied over `labels`. */
  ghost predicate Copied(
    labels: map<Bytes, Label>, rows: map<Bytes, Label>, seen: set<Bytes>, copied: map<Bytes, Label>)
  {
    && seen <= rows.Keys && copied.Keys == labels.Keys + seen
    && forall k :: k in copied ==> copied[k] == if k in seen then rows[k] else labels[k]
  }

  lemma CopyOne(
    labels: map<Bytes, Label>, rows: map<Bytes, Label>, seen: set<Bytes>, copied: map<Bytes, Label>, k: Bytes)
    requires Copied(labels, rows, seen, copied) && k in rows
    ensures Copied(labels, rows, seen + {k}, copied[k := rows[k]])
  {
  }

  method CopyRows(labels: map<Bytes, Label>, rows: map<Bytes, Label>) returns (copied: map<Bytes, Label>)
    ensures copied == labels + rows
  {
    copied := labels;
    var keys := Iterate(rows.Keys);
    for i := 0 to |keys|
      invariant Copied(labels, rows, Elements(keys[..i]), copied)
    {
      assert keys[i] in Elements(keys);
      assert Elements(keys[..i + 1]) == Elements(keys[..i]) + {keys[i]};
      CopyOne(labels, rows, Elements(keys[..i]), copied, keys[i]);
      copied := copied[keys[i] := rows[keys[i]]];
    }
    assert keys[..|keys|] == keys;
  }

  method V1ToV2Transaction(db: D.Database)
    modifies db
    ensures db.committed == V1ToV2(old(db.committed))
    ensures db.history == old(db.history) + [db.committed]
  {
    // Read in a transaction of its own.
    var read := db.committed;
    var rows: map<Bytes, Label> := if NicknamesTable in read.present then read.nicknames else map[];

    var write := db.committed;
    if rows != map[] {
      write := write.(present := write.present + {LabelsTable});
      var labels := CopyRows(write.labels, rows);
      write := write.(labels := labels);
    }
    write := write.(present := write.present - {NicknamesTable}, nicknames := map[]);
    write := write.(present := write.present + {MetaTable}, meta := write.meta[SCHEMA_VERSION_KEY := 2]);
    db.Commit(write);
  }

  method V2ToV3Transaction(db: D.Database)
    modifies db
    ensures db.committed == V2ToV3(old(db.committed))
    ensures db.history == old(db.history) + [db.committed]
  {
    var write := db.committed;
    write := write.(present := write.present + {MetaTable}, meta := write.meta[SCHEMA_VERSION_KEY := 3]);
    db.Commit(write);
  }

  /** The version is read once; every step above it runs. */
  method Migrate(db: D.Database)
    modifies db
    ensures db.committed == Migrated(old(db.committed))
    ensures db.history == old(db.history) + StepsFrom(old(db.committed), ReadVersion(old(db.committed)))
  {
    var version := ReadVersion(db.committed);
    if version >= CURRENT_VERSION {
      return;
    }
    ghost var t := db.committed;
    StepsUnfold(t);
    if version < 1 {
      V0ToV1Transaction(db);
    }
    if version < 2 {
      V1ToV2Transaction(db);
    }
    if version < 3 {
      V2ToV3Transaction(db);
    }
  }

  /** `RedbRegistry::open`, up to the handle it returns. */
  method Open(db: D.Database)
    modifies db
    ensures db.committed == Opened(old(db.committed))
    ensures db.history == old(db.history) + OpenCommits(old(db.committed))
  {
    ghost var t, before := db.committed, db.history;
    OpenIsBootstrapAndMigrate(t);
    BootstrapTransaction(db);
    Migrate(db);
    ghost var steps := StepsFrom(Bootstrapped(t), ReadVersion(Bootstrapped(t)));
    assert before + [Bootstrapped(t)] + steps == before + ([Bootstrapped(t)] + steps);
  }
}
