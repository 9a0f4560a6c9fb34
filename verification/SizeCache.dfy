/**
 * The directory-size column of the listing (server.py; the same code is in
 * server2.py): `get_directory_size` reads the directory's modification time
 * (returning 0 when that fails) and asks `_cached_get_directory_size`, an
 * `lru_cache(maxsize=128)` method, for the total of the regular files under
 * the resolved path. The cache is keyed by the handler object, the path and
 * the modification time, and evicts the least recently used entry when full.
 */
module SizeCache {
  import opened Wrappers
  import opened FsTree

  const Capacity: nat := 128

  /** `(self, path, mtime)`: `lru_cache` on a method makes the handler part of the key. */
  datatype Key = Key(handler: nat, path: string, mtime: int)

  // ---------------------------------------------------------------------------
  // The computation behind the cache
  // ---------------------------------------------------------------------------

  /** How many `rglob` entries are processed before an `OSError` ends the walk. */
  function Processed(count: nat, failAt: Option<nat>): nat
  {
    match failAt
    case None => count
    case Some(k) => if k < count then k else count
  }

  /** The total `_cached_get_directory_size` returns: the files seen before any failure. */
  function RglobTotal(t: Tree, failAt: Option<nat>): nat
  {
    var entries := Descendants(t);
    FileBytes(entries[..Processed(|entries|, failAt)])
  }

  /** The `for fp in path_obj.rglob('*')` loop, with the walk failing at entry `failAt` if given. */
  method ComputeSize(t: Tree, failAt: Option<nat>) returns (total: nat)
    ensures total == RglobTotal(t, failAt)
  {
    var entries := Descendants(t);
    var stop := Processed(|entries|, failAt);
    total := 0;
    var i := 0;
    while i < stop
      invariant 0 <= i <= stop
      invariant total == FileBytes(entries[..i])
    {
      assert entries[..i + 1] == entries[..i] + [entries[i]];
      FileBytesAppend(entries[..i], [entries[i]]);
      if entries[i].File? {
        total := total + entries[i].size;
      }
      i := i + 1;
    }
  }

  /** A complete walk counts every regular file under the directory; a failed one never counts more. */
  lemma RglobTotalSpec(t: Tree, failAt: Option<nat>)
    requires t.Dir?
    ensures failAt == None ==> RglobTotal(t, failAt) == TreeSize(t)
    ensures RglobTotal(t, failAt) <= TreeSize(t)
  {
    var entries := Descendants(t);
    DescendantsSize(t);
    PrefixBytes(entries, Processed(|entries|, failAt));
    assert entries[..|entries|] == entries;
  }

  // ---------------------------------------------------------------------------
  // Least-recently-used bookkeeping
  // ---------------------------------------------------------------------------

  ghost predicate Distinct(order: seq<Key>)
  {
    forall i, j :: 0 <= i < j < |order| ==> order[i] != order[j]
  }

  /** The cached totals and their recency order (least recent first) describe the same keys, at most 128 of them. */
  ghost predicate Coherent(totals: map<Key, nat>, order: seq<Key>)
  {
    |order| <= Capacity && Distinct(order) && (forall k :: k in totals <==> k in order)
  }

  function Without(order: seq<Key>, key: Key): (r: seq<Key>)
    ensures forall k :: k in r <==> k in order && k != key
    ensures |r| <= |order|
  {
    if order == [] then []
    else (if order[0] == key then [] else [order[0]]) + Without(order[1..], key)
  }

  /** A hit moves the key to the most-recent end. */
  function Touch(order: seq<Key>, key: Key): seq<Key>
  {
    Without(order, key) + [key]
  }

  /** A miss evicts the least recently used key when the cache is full. */
  function Evicted(order: seq<Key>): seq<Key>
  {
    if |order| >= Capacity && |order| > 0 then order[1..] else order
  }

  function AdmitOrder(order: seq<Key>, key: Key): seq<Key>
  {
    Evicted(order) + [key]
  }

  function AdmitTotals(totals: map<Key, nat>, order: seq<Key>, key: Key, total: nat): map<Key, nat>
  {
    (if |order| >= Capacity && |order| > 0 then totals - {order[0]} else totals)[key := total]
  }

  lemma {:induction false} WithoutDistinct(order: seq<Key>, key: Key)
    requires Distinct(order)
    ensures Distinct(Without(order, key))
    ensures key in order ==> |Without(order, key)| == |order| - 1
    ensures key !in order ==> Without(order, key) == order
    decreases |order|
  {
    if order != [] {
      WithoutDistinct(order[1..], key);
      var rest := Without(order[1..], key);
      if order[0] != key {
        assert order[0] !in rest;
      } else {
        assert key !in order[1..];
      }
    }
  }

  /** A hit keeps the same keys and values, and makes the key the most recently used. */
  lemma TouchCoherent(totals: map<Key, nat>, order: seq<Key>, key: Key)
    requires Coherent(totals, order) && key in totals
    ensures Coherent(totals, Touch(order, key))
    ensures Touch(order, key)[|Touch(order, key)| - 1] == key
  {
    WithoutDistinct(order, key);
  }

  /**
   * A miss stores the new total as the most recently used entry, keeps at
   * most 128 entries, and drops only the least recently used one, and only
   * when the cache was full.
   */
  lemma AdmitCoherent(totals: map<Key, nat>, order: seq<Key>, key: Key, total: nat)
    requires Coherent(totals, order) && key !in totals
    ensures Coherent(AdmitTotals(totals, order, key, total), AdmitOrder(order, key))
    ensures AdmitTotals(totals, order, key, total)[key] == total
    ensures forall k :: k in totals && k !in AdmitTotals(totals, order, key, total) ==>
              |order| == Capacity && k == order[0]
    ensures forall k :: k in totals && k in AdmitTotals(totals, order, key, total) ==>
              AdmitTotals(totals, order, key, total)[k] == totals[k]
  {
    var o := AdmitOrder(order, key);
    var e := Evicted(order);
    forall i, j | 0 <= i < j < |o| ensures o[i] != o[j] {
      if j == |o| - 1 {
        assert o[i] == e[i];
        assert e[i] in order;
      } else if |order| >= Capacity && |order| > 0 {
        assert o[i] == order[i + 1] && o[j] == order[j + 1];
      }
    }
    forall k ensures k in AdmitTotals(totals, order, key, total) <==> k in o {
      if |order| >= Capacity && |order| > 0 {
        assert order == [order[0]] + order[1..];
        if k in order[1..] {
          assert k != order[0];
        }
      }
    }
  }

  // ---------------------------------------------------------------------------
  // The cache object
  // ---------------------------------------------------------------------------

  class DirectorySizeCache {
    var totals: map<Key, nat>
    var order: seq<Key>

    ghost predicate Valid()
      reads this
    {
      Coherent(totals, order)
    }

    constructor()
      ensures Valid() && totals == map[] && order == []
    {
      totals := map[];
      order := [];
    }

    /**
     * `_cached_get_directory_size(path, mtime)` through `lru_cache`: a hit
     * returns the stored total without walking; a miss walks `t` and stores
     * the result.
     */
    method Lookup(key: Key, t: Tree, failAt: Option<nat>) returns (total: nat)
      requires Valid()
      modifies this
      ensures Valid()
      ensures key in old(totals) ==>
                total == old(totals)[key] && totals == old(totals) && order == Touch(old(order), key)
      ensures key !in old(totals) ==>
                total == RglobTotal(t, failAt) &&
                totals == AdmitTotals(old(totals), old(order), key, total) &&
                order == AdmitOrder(old(order), key)
      ensures key in totals && totals[key] == total
    {
      if key in totals {
        total := totals[key];
        TouchCoherent(totals, order, key);
        order := Touch(order, key);
      } else {
        total := ComputeSize(t, failAt);
        AdmitCoherent(totals, order, key, total);
        totals := AdmitTotals(totals, order, key, total);
        order := AdmitOrder(order, key);
      }
    }

    /**
     * `get_directory_size(path)`: `mtime` is the result of `stat` (None when
     * it raised), `resolved` the resolved path and `handler` the handler
     * object the cached method is bound to.
     */
    method DirectorySize(handler: nat, resolved: string, mtime: Option<int>, t: Tree, failAt: Option<nat>)
      returns (total: nat)
      requires Valid()
      modifies this
      ensures Valid()
      ensures mtime == None ==> total == 0 && totals == old(totals) && order == old(order)
      ensures mtime.Some? && Key(handler, resolved, mtime.value) in old(totals) ==>
                total == old(totals)[Key(handler, resolved, mtime.value)] &&
                totals == old(totals) && order == Touch(old(order), Key(handler, resolved, mtime.value))
      ensures mtime.Some? && Key(handler, resolved, mtime.value) !in old(totals) ==>
                total == RglobTotal(t, failAt) &&
                totals == AdmitTotals(old(totals), old(order), Key(handler, resolved, mtime.value), total) &&
                order == AdmitOrder(old(order), Key(handler, resolved, mtime.value))
    {
      if mtime == None {
        return 0;
      }
      total := Lookup(Key(handler, resolved, mtime.value), t, failAt);
    }
  }

  /** Two lookups of the same key in a row: the second is a hit and returns the first result, whatever the tree now holds. */
  method RepeatedLookup(cache: DirectorySizeCache, key: Key, t1: Tree, t2: Tree) returns (first: nat, second: nat)
    requires cache.Valid()
    modifies cache
    ensures first == second
    ensures key !in old(cache.totals) ==> first == RglobTotal(t1, None)
  {
    first := cache.Lookup(key, t1, None);
    second := cache.Lookup(key, t2, None);
  }
}
