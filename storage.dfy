// Per-node record store (chord/storage.py): the records this node is
// primary for, and the backup copies it holds on behalf of other nodes,
// each record carrying the vector clock it was written under.

module Storage {
  import opened Base
  import opened VectorClocks
  import Routing

  /** A stored record: the value and the clock it was written under. */
  datatype Entry<V> = Entry(value: V, version: Clock)

  /** Key -> record, as in `primary_store` and each map of `backup_store`. */
  type Store<V> = map<string, Entry<V>>

  /** `store.get(key)`. */
  function Lookup<V>(p: Store<V>, key: string): (r: Option<Entry<V>>)
    ensures r.Some? <==> key in p
    ensures r.Some? ==> r.value == p[key]
  {
    if key in p then Some(p[key]) else None
  }

  /** `backup_store.get(owner, {})`: the records held for `owner`. */
  function Held<V>(backup: map<int, Store<V>>, owner: int): (s: Store<V>)
    ensures owner in backup ==> s == backup[owner]
    ensures owner !in backup ==> s == map[]
  {
    if owner in backup then backup[owner] else map[]
  }

  /**
   * The clock a write gets when the caller gives none: a copy of the
   * previous clock with this node's own entry raised by one, or a fresh
   * clock `{self: 1}` for a new key. Either way it is strictly after what
   * it replaces.
   */
  function NextVersion(prev: Option<Clock>, self: int): (v: Clock)
    ensures prev.None? ==> v == map[self := 1]
    ensures prev.Some? ==> Before(prev.value, v)
    ensures prev.Some? ==> At(v, self) == At(prev.value, self) + 1
    ensures prev.Some? ==> forall n :: n != self ==> At(v, n) == At(prev.value, n)
  {
    match prev
    case None => Inc(map[], self)
    case Some(c) => IncIsAfter(c, self); Inc(c, self)
  }

  /** The clock of the record stored under `key`, if any. */
  function VersionOf<V>(p: Store<V>, key: string): Option<Clock>
  {
    if key in p then Some(p[key].version) else None
  }

  /** `backup_store` after `put_backup(key, e, owner)`. */
  function WithBackup<V>(backup: map<int, Store<V>>, owner: int, key: string, e: Entry<V>): map<int, Store<V>>
  {
    backup[owner := Held(backup, owner)[key := e]]
  }

  /** Reading back a backup just written gives it; every other slot is as before. */
  lemma BackupReadBack<V>(backup: map<int, Store<V>>, owner: int, key: string, e: Entry<V>, o: int, k: string)
    ensures Lookup(Held(WithBackup(backup, owner, key, e), o), k) ==
      if o == owner && k == key then Some(e) else Lookup(Held(backup, o), k)
  {
  }

  // ---------------------------------------------------------------------
  // receive_keys: a record is taken only when it is new to the store or
  // strictly after the stored one.

  /** Does the store give way to `e` under `key`? */
  predicate Accepts<V>(p: Store<V>, key: string, e: Entry<V>)
  {
    key !in p || Before(p[key].version, e.version)
  }

  /** The store after taking every record of `data` that it accepts. */
  function Absorb<V>(p: Store<V>, data: Store<V>): (r: Store<V>)
    ensures r.Keys == p.Keys + data.Keys
  {
    map k | k in p.Keys + data.Keys :: if k in data && Accepts(p, k, data[k]) then data[k] else p[k]
  }

  /** The records of `data` whose keys are in `ks`. */
  function Restrict<V>(data: Store<V>, ks: set<string>): (r: Store<V>)
    ensures r.Keys == data.Keys * ks
    ensures forall k :: k in r ==> r[k] == data[k]
  {
    map k | k in data && k in ks :: data[k]
  }

  /** Taking the records one key at a time reaches the same store. */
  lemma AbsorbStep<V>(p: Store<V>, data: Store<V>, done: set<string>, k: string)
    requires k in data && k !in done
    ensures var q := Absorb(p, Restrict(data, done));
      Absorb(p, Restrict(data, done + {k})) ==
        if Accepts(q, k, data[k]) then q[k := data[k]] else q
  {
  }

  lemma AbsorbNone<V>(p: Store<V>, data: Store<V>)
    ensures Absorb(p, Restrict(data, data.Keys - data.Keys)) == p
  {
    assert Restrict(data, data.Keys - data.Keys) == map[];
  }

  lemma AbsorbAll<V>(p: Store<V>, data: Store<V>)
    ensures Absorb(p, Restrict(data, data.Keys - {})) == Absorb(p, data)
  {
    assert Restrict(data, data.Keys - {}) == data;
  }

  /**
   * What receiving guarantees: no stored clock goes backwards, and
   * afterwards no stored clock is strictly before the one received for
   * the same key.
   */
  lemma AbsorbNeverGoesBack<V>(p: Store<V>, data: Store<V>)
    ensures forall k :: k in p ==> Dominates(Absorb(p, data)[k].version, p[k].version)
    ensures forall k :: k in data ==> !Before(Absorb(p, data)[k].version, data[k].version)
  {
    var r := Absorb(p, data);
    forall k | k in p
      ensures Dominates(r[k].version, p[k].version)
    {
      DominatesIffAfterOrEqual(r[k].version, p[k].version);
    }
    forall k | k in data
      ensures !Before(r[k].version, data[k].version)
    {
      BeforeIrreflexive(data[k].version);
    }
  }

  /** Receiving the same records a second time changes nothing. */
  lemma AbsorbIdempotent<V>(p: Store<V>, data: Store<V>)
    ensures Absorb(Absorb(p, data), data) == Absorb(p, data)
  {
    var r := Absorb(p, data);
    forall k | k in data
      ensures !Accepts(r, k, data[k])
    {
      BeforeIrreflexive(data[k].version);
    }
  }

  // ---------------------------------------------------------------------
  // transfer_keys

  /** The records `transfer_keys(keys)` hands over. */
  function Taken<V>(p: Store<V>, keys: seq<string>): (r: Store<V>)
    ensures r.Keys == set k | k in p && k in keys
    ensures forall k :: k in r ==> r[k] == p[k]
  {
    map k | k in p && k in keys :: p[k]
  }

  /** The records it leaves behind. */
  function Kept<V>(p: Store<V>, keys: seq<string>): (r: Store<V>)
    ensures r.Keys == set k | k in p && k !in keys
    ensures forall k :: k in r ==> r[k] == p[k]
  {
    map k | k in p && k !in keys :: p[k]
  }

  /** Handing over one more key moves its record, if still kept, from one part to the other. */
  lemma TransferStep<V>(p: Store<V>, keys: seq<string>, i: nat)
    requires i < |keys|
    ensures keys[i] in Kept(p, keys[..i]) ==>
      Taken(p, keys[..i + 1]) == Taken(p, keys[..i])[keys[i] := Kept(p, keys[..i])[keys[i]]]
    ensures keys[i] !in Kept(p, keys[..i]) ==> Taken(p, keys[..i + 1]) == Taken(p, keys[..i])
    ensures Kept(p, keys[..i + 1]) == Kept(p, keys[..i]) - {keys[i]}
  {
    assert keys[..i + 1] == keys[..i] + [keys[i]];
  }

  /**
   * Handing keys over and receiving them back restores the store: the two
   * parts are disjoint and together are the whole.
   */
  lemma TransferThenReceiveRestores<V>(p: Store<V>, keys: seq<string>)
    ensures Taken(p, keys).Keys !! Kept(p, keys).Keys
    ensures Absorb(Kept(p, keys), Taken(p, keys)) == p
  {
    var kept, taken := Kept(p, keys), Taken(p, keys);
    assert Absorb(kept, taken).Keys == p.Keys;
  }

  // ---------------------------------------------------------------------
  // in_range (storage's own copy): `(start, end]` or `[start, end]`.

  /** `in_range` of chord/storage.py; the end is always included. */
  predicate KeyInRange(identifier: int, start: int, end: int, inclusiveStart: bool)
  {
    if start == end then true
    else if start < end then
      if inclusiveStart then start <= identifier <= end else start < identifier <= end
    else
      if inclusiveStart then identifier >= start || identifier <= end
      else identifier > start || identifier <= end
  }

  /** It is the routing `in_range` with the end included. */
  lemma KeyInRangeIsRoutingInRange(x: int, start: int, end: int, inclusiveStart: bool)
    ensures KeyInRange(x, start, end, inclusiveStart) <==> Routing.InRange(x, start, end, inclusiveStart, true)
  {
  }

  // ---------------------------------------------------------------------
  // Owners of backup maps, in the order `backup_store` iterates them.

  predicate Distinct(os: seq<int>)
  {
    forall i, j :: 0 <= i < j < |os| ==> os[i] != os[j]
  }

  /** `os` without `o`. */
  function Drop(os: seq<int>, o: int): (r: seq<int>)
    ensures forall x :: x in r <==> x in os && x != o
    ensures Distinct(os) ==> Distinct(r)
  {
    if os == [] then []
    else if os[0] == o then Drop(os[1..], o)
    else
      var rest := Drop(os[1..], o);
      assert Distinct(os) ==> os[0] !in os[1..];
      [os[0]] + rest
  }

  /**
   * `ChordStorage`, in memory. `owners` lists the keys of `backup` in the
   * order the dictionary first received them, which is the order the
   * source's loops over `backup_store` visit them.
   */
  class ChordStorage<V> {
    const nodeId: int
    var primary: Store<V>
    var backup: map<int, Store<V>>
    var owners: seq<int>

    ghost predicate Valid()
      reads this
    {
      Distinct(owners) && forall o :: o in backup <==> o in owners
    }

    constructor (nodeId: int)
      ensures Valid() && this.nodeId == nodeId
      ensures primary == map[] && backup == map[] && owners == []
    {
      this.nodeId := nodeId;
      primary := map[];
      backup := map[];
      owners := [];
    }

    /**
     * `put`: stores the record under the given clock, or under the next
     * clock after the stored one when none is given, and returns that clock.
     */
    method Put(key: string, value: V, version: Option<Clock>) returns (v: Clock)
      requires Valid()
      modifies this
      ensures Valid()
      ensures v == if version.Some? then version.value else NextVersion(VersionOf(old(primary), key), nodeId)
      ensures primary == old(primary)[key := Entry(value, v)]
      ensures backup == old(backup) && owners == old(owners)
    {
      if version.Some? {
        v := version.value;
      } else if key in primary {
        v := Inc(primary[key].version, nodeId);
      } else {
        v := Inc(map[], nodeId);
      }
      primary := primary[key := Entry(value, v)];
    }

    /** `put_backup`: stores the record for `owner` under the clock given. */
    method PutBackup(key: string, value: V, version: Clock, owner: int) returns (v: Clock)
      requires Valid()
      modifies this
      ensures Valid()
      ensures v == version
      ensures backup == WithBackup(old(backup), owner, key, Entry(value, version))
      ensures owners == if owner in old(backup) then old(owners) else old(owners) + [owner]
      ensures primary == old(primary)
    {
      if owner !in backup {
        backup := backup[owner := map[]];
        owners := owners + [owner];
      }
      backup := backup[owner := backup[owner][key := Entry(value, version)]];
      v := version;
    }

    /** `get_backup`: `None` for an unknown owner or key. */
    method GetBackup(key: string, owner: int) returns (r: Option<Entry<V>>)
      ensures r == Lookup(Held(backup, owner), key)
      ensures r.Some? ==> owner in backup && key in backup[owner] && r.value == backup[owner][key]
    {
      if owner in backup && key in backup[owner] {
        r := Some(backup[owner][key]);
      } else {
        r := None;
      }
    }

    /** `get_all_backups_for_node`: a copy, so later changes to it do not reach the store. */
    method GetAllBackupsForNode(owner: int) returns (r: Store<V>)
      ensures owner in backup ==> r == backup[owner]
      ensures owner !in backup ==> r == map[]
    {
      r := if owner in backup then backup[owner] else map[];
    }

    /** `receive_keys`: takes each incoming record the store accepts. */
    method ReceiveKeys(data: Store<V>)
      modifies this
      ensures primary == Absorb(old(primary), data)
      ensures backup == old(backup) && owners == old(owners)
    {
      var p0 := primary;
      var todo := data.Keys;
      AbsorbNone(p0, data);
      while todo != {}
        invariant todo <= data.Keys
        invariant primary == Absorb(p0, Restrict(data, data.Keys - todo))
        invariant backup == old(backup) && owners == old(owners)
        decreases |todo|
      {
        var k :| k in todo;
        ghost var done := data.Keys - todo;
        AbsorbStep(p0, data, done, k);
        AcceptOne(k, data[k]);
        todo := todo - {k};
        assert data.Keys - todo == done + {k};
      }
      AbsorbAll(p0, data);
    }

    /** One step of `receive_keys`: takes `e` under `key` if the store accepts it. */
    method AcceptOne(key: string, e: Entry<V>)
      modifies this
      ensures primary == if Accepts(old(primary), key, e) then old(primary)[key := e] else old(primary)
      ensures backup == old(backup) && owners == old(owners)
    {
      if key !in primary || Before(primary[key].version, e.version) {
        primary := primary[key := e];
      }
    }

    /**
     * `transfer_backups_to_primary`: promotes the records held for `owner`
     * that the primary store accepts, then forgets that owner's backups.
     */
    method TransferBackupsToPrimary(owner: int)
      requires Valid()
      modifies this
      ensures Valid()
      ensures owner in old(backup) ==> primary == Absorb(old(primary), old(backup)[owner])
      ensures owner !in old(backup) ==> primary == old(primary)
      ensures backup == old(backup) - {owner}
      ensures owners == Drop(old(owners), owner)
    {
      if owner in backup {
        ReceiveKeys(backup[owner]);
        backup := backup - {owner};
        owners := Drop(owners, owner);
      } else {
        assert forall o :: o in old(owners) ==> o != owner;
        DropAbsent(owners, owner);
      }
    }

    /** `get`. */
    method Get(key: string) returns (r: Option<Entry<V>>)
      ensures r == Lookup(primary, key)
    {
      r := if key in primary then Some(primary[key]) else None;
    }

    /** `delete`: true exactly when the key was there; afterwards it is not. */
    method Delete(key: string) returns (deleted: bool)
      requires Valid()
      modifies this
      ensures Valid()
      ensures deleted <==> key in old(primary)
      ensures primary == old(primary) - {key}
      ensures backup == old(backup) && owners == old(owners)
    {
      deleted := key in primary;
      primary := primary - {key};
    }

    /**
     * `delete_backup`: true exactly when the owner held the key. The
     * owner's (possibly now empty) map stays.
     */
    method DeleteBackup(key: string, owner: int) returns (deleted: bool)
      requires Valid()
      modifies this
      ensures Valid()
      ensures deleted <==> owner in old(backup) && key in old(backup)[owner]
      ensures backup == if deleted then old(backup)[owner := old(backup)[owner] - {key}] else old(backup)
      ensures primary == old(primary) && owners == old(owners)
    {
      deleted := owner in backup && key in backup[owner];
      if deleted {
        backup := backup[owner := backup[owner] - {key}];
      }
    }

    /**
     * `transfer_keys`: removes and returns the listed keys that are
     * present; a key listed twice is handed over once.
     */
    method TransferKeys(keys: seq<string>) returns (transferred: Store<V>)
      modifies this
      ensures transferred == Taken(old(primary), keys)
      ensures primary == Kept(old(primary), keys)
      ensures backup == old(backup) && owners == old(owners)
    {
      var p0 := primary;
      transferred := map[];
      for i := 0 to |keys|
        invariant transferred == Taken(p0, keys[..i])
        invariant primary == Kept(p0, keys[..i])
        invariant backup == old(backup) && owners == old(owners)
      {
        TransferStep(p0, keys, i);
        var k := keys[i];
        if k in primary {
          transferred := transferred[k := primary[k]];
          primary := primary - {k};
        }
      }
      assert keys[..|keys|] == keys;
    }

    /**
     * `get_keys_in_range`: the stored keys whose hash lies in
     * `(start, end]` (or `[start, end]`), each once. The order of the
     * source's list is the dictionary's, which the model does not fix.
     */
    method GetKeysInRange(digest: string -> nat, m: nat, start: int, end: int, inclusiveStart: bool)
      returns (ks: seq<string>)
      ensures forall k :: k in ks <==>
        k in primary && KeyInRange(Routing.HashToRing(digest, k, m), start, end, inclusiveStart)
      ensures forall i, j :: 0 <= i < j < |ks| ==> ks[i] != ks[j]
    {
      ks := [];
      var todo := primary.Keys;
      while todo != {}
        invariant todo <= primary.Keys
        invariant forall k :: k in ks <==>
          k in primary && k !in todo && KeyInRange(Routing.HashToRing(digest, k, m), start, end, inclusiveStart)
        invariant forall i, j :: 0 <= i < j < |ks| ==> ks[i] != ks[j]
        decreases |todo|
      {
        var k :| k in todo;
        if KeyInRange(Routing.HashToRing(digest, k, m), start, end, inclusiveStart) {
          ks := ks + [k];
        }
        todo := todo - {k};
      }
    }

    /** `clear`: empties the primary store; backups stay. */
    method Clear()
      requires Valid()
      modifies this
      ensures Valid()
      ensures primary == map[]
      ensures backup == old(backup) && owners == old(owners)
    {
      primary := map[];
    }
  }

  /** Dropping an owner that is not there changes nothing. */
  lemma {:induction false} DropAbsent(os: seq<int>, o: int)
    requires o !in os
    ensures Drop(os, o) == os
  {
    if os != [] {
      DropAbsent(os[1..], o);
    }
  }
}
