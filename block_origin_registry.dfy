/**
 * `CScopedBlockOriginRegistry`: the process-wide table that says from which
 * sources the blocks now being validated were received.
 *
 * The table is a list of (block hash, origin) entries. A scope object adds one
 * entry when it is created and keeps a handle to it (the C++ keeps a list
 * iterator); when the scope ends it erases exactly that entry. The table is
 * passed explicitly instead of being a static member, and the mutex that guards
 * it is left out because the model is sequential.
 */
module BlockOriginRegistry {
  import opened Ints
  import opened InvalidTxn

  /** One registered origin; `handle` identifies the entry as the stored iterator does. */
  datatype Entry = Entry(handle: nat, hash: uint256, origin: BlockOrigin)

  /** The origins of the entries for `hash`, in registration order. */
  function OriginsFor(entries: seq<Entry>, hash: uint256): (r: seq<BlockOrigin>)
    ensures |r| <= |entries|
  {
    if entries == [] then []
    else
      var last := entries[|entries| - 1];
      OriginsFor(entries[..|entries| - 1], hash) + (if last.hash == hash then [last.origin] else [])
  }

  /** The lookup is empty exactly when no entry is registered for the hash. */
  lemma {:induction false} NoOriginsIffUnregistered(entries: seq<Entry>, hash: uint256)
    ensures OriginsFor(entries, hash) == [] <==> forall e | e in entries :: e.hash != hash
    decreases |entries|
  {
    if entries != [] {
      var init := entries[..|entries| - 1];
      assert entries == init + [entries[|entries| - 1]];
      assert forall e | e in entries :: e in init || e == entries[|entries| - 1];
      NoOriginsIffUnregistered(init, hash);
    }
  }

  /** The lookup distributes over concatenation of tables. */
  lemma {:induction false} OriginsForConcat(a: seq<Entry>, b: seq<Entry>, hash: uint256)
    ensures OriginsFor(a + b, hash) == OriginsFor(a, hash) + OriginsFor(b, hash)
    decreases |b|
  {
    if b == [] {
      assert a + b == a;
    } else {
      var b' := b[..|b| - 1];
      assert (a + b)[..|a + b| - 1] == a + b';
      assert (a + b)[|a + b| - 1] == b[|b| - 1];
      OriginsForConcat(a, b', hash);
    }
  }

  /**
   * Registering entries for `hash` on top of a table: the lookup returns what it
   * returned before followed by the new origins in the order they were added;
   * entries for other hashes do not show up.
   */
  lemma RegisteredOriginsInOrder(table: seq<Entry>, added: seq<Entry>, hash: uint256)
    requires forall e | e in added :: e.hash == hash
    ensures OriginsFor(table + added, hash) == OriginsFor(table, hash) + seq(|added|, i requires 0 <= i < |added| => added[i].origin)
  {
    OriginsForConcat(table, added, hash);
    AllMatching(added, hash);
  }

  lemma {:induction false} AllMatching(added: seq<Entry>, hash: uint256)
    requires forall e | e in added :: e.hash == hash
    ensures OriginsFor(added, hash) == seq(|added|, i requires 0 <= i < |added| => added[i].origin)
    decreases |added|
  {
    if added != [] {
      var init := added[..|added| - 1];
      assert forall e | e in init :: e in added;
      AllMatching(init, hash);
    }
  }

  /** Every entry carries a different handle. */
  ghost predicate UniqueHandles(entries: seq<Entry>) {
    forall i, j | 0 <= i < j < |entries| :: entries[i].handle != entries[j].handle
  }

  /** The table with the entries carrying `handle` erased. */
  function Without(entries: seq<Entry>, handle: nat): (r: seq<Entry>)
    ensures |r| <= |entries|
    ensures forall e | e in r :: e in entries && e.handle != handle
  {
    if entries == [] then []
    else (if entries[0].handle == handle then [] else [entries[0]]) + Without(entries[1..], handle)
  }

  /** With unique handles, erasing by the handle of entry `i` removes exactly entry `i`. */
  lemma {:induction false} WithoutRemovesOne(entries: seq<Entry>, i: nat)
    requires UniqueHandles(entries) && i < |entries|
    ensures Without(entries, entries[i].handle) == entries[..i] + entries[i + 1..]
    decreases i
  {
    if i == 0 {
      WithoutAbsent(entries[1..], entries[0].handle);
    } else {
      var tail := entries[1..];
      assert tail[i - 1] == entries[i];
      WithoutRemovesOne(tail, i - 1);
      assert entries[..i] + entries[i + 1..] == [entries[0]] + (tail[..i - 1] + tail[i..]);
    }
  }

  /** Erasing a handle no entry carries leaves the table as it is. */
  lemma {:induction false} WithoutAbsent(entries: seq<Entry>, handle: nat)
    requires forall e | e in entries :: e.handle != handle
    ensures Without(entries, handle) == entries
    decreases |entries|
  {
    if entries != [] {
      assert forall e | e in entries[1..] :: e in entries;
      WithoutAbsent(entries[1..], handle);
    }
  }

  lemma OriginsForSingle(e: Entry, hash: uint256)
    ensures OriginsFor([e], hash) == if e.hash == hash then [e.origin] else []
  {
    assert [e][..0] == [];
  }

  /** The lookup over a table, split around entry `i`. */
  lemma OriginsSplitAt(entries: seq<Entry>, i: nat, hash: uint256)
    requires i < |entries|
    ensures OriginsFor(entries, hash) ==
              OriginsFor(entries[..i], hash)
              + (if entries[i].hash == hash then [entries[i].origin] else [])
              + OriginsFor(entries[i + 1..], hash)
  {
    var pre, single, post := entries[..i], [entries[i]], entries[i + 1..];
    assert entries == pre + single + post;
    OriginsForConcat(pre + single, post, hash);
    OriginsForConcat(pre, single, hash);
    OriginsForSingle(entries[i], hash);
  }

  /**
   * Erasing entry `i` takes its origin out of the lookup for its own hash and
   * leaves the lookup for every other hash as it was.
   */
  lemma OriginsAfterErase(entries: seq<Entry>, i: nat, hash: uint256)
    requires UniqueHandles(entries) && i < |entries|
    ensures OriginsFor(Without(entries, entries[i].handle), hash) ==
              OriginsFor(entries[..i], hash) + OriginsFor(entries[i + 1..], hash)
    ensures entries[i].hash != hash ==>
              OriginsFor(Without(entries, entries[i].handle), hash) == OriginsFor(entries, hash)
    ensures entries[i].hash == hash ==>
              |OriginsFor(Without(entries, entries[i].handle), hash)| == |OriginsFor(entries, hash)| - 1
  {
    var pre, post := entries[..i], entries[i + 1..];
    var rest := Without(entries, entries[i].handle);
    WithoutRemovesOne(entries, i);
    assert rest == pre + post;
    OriginsForConcat(pre, post, hash);
    OriginsSplitAt(entries, i, hash);
    var before, after := OriginsFor(pre, hash), OriginsFor(post, hash);
    assert OriginsFor(rest, hash) == before + after;
    if entries[i].hash == hash {
      assert OriginsFor(entries, hash) == before + [entries[i].origin] + after;
    } else {
      assert OriginsFor(entries, hash) == before + [] + after;
      assert before + [] + after == before + after;
    }
  }

  /** A registration undone by erasing its fresh handle restores the table exactly. */
  lemma {:induction false} RegisterThenErase(entries: seq<Entry>, e: Entry)
    requires forall x | x in entries :: x.handle != e.handle
    ensures Without(entries + [e], e.handle) == entries
    decreases |entries|
  {
    if entries == [] {
      assert Without([e], e.handle) == [] + Without([], e.handle);
    } else {
      assert (entries + [e])[1..] == entries[1..] + [e];
      assert forall x | x in entries[1..] :: x in entries;
      RegisterThenErase(entries[1..], e);
    }
  }

  /** The static list `mRegistry`. */
  class Registry {
    var entries: seq<Entry>
    var nextHandle: nat

    ghost predicate Valid()
      reads this
    {
      && UniqueHandles(entries)
      && (forall e | e in entries :: e.handle < nextHandle)
    }

    constructor ()
      ensures Valid() && entries == []
    {
      entries := [];
      nextHandle := 0;
    }

    /** `GetOrigins`: a scan of the table collecting the origins registered for `blockHash`. */
    method GetOrigins(blockHash: uint256) returns (origins: seq<BlockOrigin>)
      ensures origins == OriginsFor(entries, blockHash)
    {
      origins := [];
      var i := 0;
      while i < |entries|
        invariant 0 <= i <= |entries|
        invariant origins == OriginsFor(entries[..i], blockHash)
      {
        assert entries[..i + 1][..i] == entries[..i];
        if entries[i].hash == blockHash {
          origins := origins + [entries[i].origin];
        }
        i := i + 1;
      }
      assert entries[..|entries|] == entries;
    }
  }

  /** `CScopedBlockOriginRegistry`: one registration, held for the lifetime of the scope. */
  class ScopedBlockOrigin {
    const registry: Registry
    const handle: nat

    /** Registers `BlockOrigin(source, address, nodeId)` for `hash` at the end of the table. */
    constructor (registry: Registry, hash: uint256, source: string, address: string := "", nodeId: int64 := 0)
      requires registry.Valid()
      modifies registry
      ensures registry.Valid()
      ensures this.registry == registry
      ensures forall e | e in old(registry.entries) :: e.handle != handle
      ensures registry.entries == old(registry.entries) + [Entry(handle, hash, BlockOrigin(source, address, nodeId))]
    {
      this.registry := registry;
      handle := registry.nextHandle;
      registry.entries := registry.entries + [Entry(registry.nextHandle, hash, BlockOrigin(source, address, nodeId))];
      registry.nextHandle := registry.nextHandle + 1;
    }

    /** The scope's registration is still in the table. */
    ghost predicate Registered()
      reads this, registry
    {
      exists i | 0 <= i < |registry.entries| :: registry.entries[i].handle == handle
    }

    /**
     * The destructor: erases the entry this scope registered, which is exactly
     * one entry, and leaves every other entry in its place.
     */
    method Close()
      requires registry.Valid() && Registered()
      modifies registry
      ensures registry.Valid()
      ensures registry.entries == Without(old(registry.entries), handle)
      ensures exists i | 0 <= i < |old(registry.entries)| :: old(registry.entries)[i].handle == handle
                && registry.entries == old(registry.entries)[..i] + old(registry.entries)[i + 1..]
    {
      ghost var i :| 0 <= i < |registry.entries| && registry.entries[i].handle == handle;
      WithoutRemovesOne(registry.entries, i);
      registry.entries := Without(registry.entries, handle);
      assert registry.entries == old(registry.entries)[..i] + old(registry.entries)[i + 1..];
    }
  }

  /**
   * The scope discipline, with two overlapping validations of the same block:
   * while both scopes are open the lookup sees the older table's origins followed
   * by the outer and then the inner origin; closing the inner scope does not
   * disturb the outer one, and once both have ended the table is as it was.
   */
  method WithBlockOriginScope(registry: Registry, hash: uint256, outer: BlockOrigin, inner: BlockOrigin)
      returns (seen: seq<BlockOrigin>)
    requires registry.Valid()
    modifies registry
    ensures seen == OriginsFor(old(registry.entries), hash) + [outer, inner]
    ensures registry.Valid() && registry.entries == old(registry.entries)
  {
    var table := registry.entries;
    var outerScope := new ScopedBlockOrigin(registry, hash, outer.source, outer.address, outer.nodeId);
    var outerEntry := Entry(outerScope.handle, hash, outer);
    var afterOuter := registry.entries;
    var innerScope := new ScopedBlockOrigin(registry, hash, inner.source, inner.address, inner.nodeId);
    var innerEntry := Entry(innerScope.handle, hash, inner);
    assert registry.entries == table + [outerEntry, innerEntry];

    seen := registry.GetOrigins(hash);
    RegisteredOriginsInOrder(table, [outerEntry, innerEntry], hash);
    assert seen == OriginsFor(table, hash) + [outer, inner];

    assert registry.entries[|registry.entries| - 1].handle == innerScope.handle;
    innerScope.Close();
    RegisterThenErase(afterOuter, innerEntry);
    assert registry.entries == table + [outerEntry];

    assert registry.entries[|registry.entries| - 1].handle == outerScope.handle;
    outerScope.Close();
    RegisterThenErase(table, outerEntry);
  }
}
