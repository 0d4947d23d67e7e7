/**
 * The namespace context cache (src/netmirage-core/netcache.c, and its
 * older copy src/netcache.c): a map from node identifiers to open network
 * namespace contexts, bounded in size, whose entries are evicted in the
 * order they were created.
 *
 * The C code keeps the creation order in a singly linked list from the
 * oldest to the newest node next to a hash table of the same nodes; here the
 * list is the sequence `chain` and the table the map `entries`.
 */
module NetCache {
  import opened Base

  /** The lower bound on the capacity of the cache. */
  const MIN_ENTRIES: nat := 100

  /** A node identifier (nodeId). */
  type NodeId = u32

  /**
   * The namespace context a cache entry holds (netContext), opaque here: a
   * handle to what netOpenNamespaceInPlace set up.
   */
  type Context = nat

  /** ncOpenNamespace's answer: the context, or the error the open failed with. */
  datatype Opened = Opened(ctx: Context) | Failed(err: int)

  /** Whether `s` holds no element twice. */
  predicate Distinct(s: seq<NodeId>) {
    forall i, j | 0 <= i < j < |s| :: s[i] != s[j]
  }

  class Cache {
    var maxEntries: nat
    /** The cached identifiers from the oldest to the newest entry. */
    var chain: seq<NodeId>
    var entries: map<NodeId, Context>

    /** The map and the chain hold the same identifiers, each once, and no more than maxEntries. */
    ghost predicate Valid()
      reads this
    {
      && MIN_ENTRIES <= maxEntries
      && Distinct(chain)
      && (forall i :: i in entries <==> i in chain)
      && |chain| <= maxEntries
    }

    /**
     * ncNewCache.  `estimate` is the number of entries that fit in the
     * memory budget (a floating-point division in the C code); the capacity
     * is at least MIN_ENTRIES.
     */
    constructor (estimate: nat)
      ensures Valid()
      ensures maxEntries == if estimate < MIN_ENTRIES then MIN_ENTRIES else estimate
      ensures chain == [] && entries == map[]
    {
      maxEntries := if estimate < MIN_ENTRIES then MIN_ENTRIES else estimate;
      chain := [];
      entries := map[];
    }

    /**
     * ncOpenNamespace.  `switchRes` is what netSwitchNamespace answers for a
     * cached context; `openRes` and `created` are what
     * netOpenNamespaceInPlace answers and sets up for an uncached one.
     *
     * A hit answers the cached context and changes nothing.  A miss on a
     * full cache first evicts the oldest entry, and that eviction stands even
     * when the open then fails; a successful open adds the identifier as the
     * newest entry.
     */
    method OpenNamespace(id: NodeId, switchRes: int, openRes: int, created: Context) returns (r: Opened)
      requires Valid()
      modifies this
      ensures Valid() && maxEntries == old(maxEntries)
      ensures id in old(entries) ==>
        && chain == old(chain) && entries == old(entries)
        && r == if switchRes != 0 then Failed(switchRes) else Opened(old(entries)[id])
      ensures id !in old(entries) ==>
        var kept := Evicted(old(chain), old(maxEntries));
        && (openRes != 0 ==> r == Failed(openRes) && chain == kept)
        && (openRes == 0 ==> r == Opened(created) && chain == kept + [id])
        && forall i | i in entries :: entries[i] == if i == id then created else old(entries[i])
    {
      if id in entries {
        if switchRes != 0 {
          return Failed(switchRes);
        }
        return Opened(entries[id]);
      }
      if |chain| >= maxEntries {
        var oldest := chain[0];
        assert oldest !in chain[1..];
        chain := chain[1..];
        entries := map i | i in entries && i != oldest :: entries[i];
      }
      if openRes != 0 {
        return Failed(openRes);
      }
      chain := chain + [id];
      entries := entries[id := created];
      r := Opened(created);
    }
  }

  /**
   * The chain once room is made for one more entry: without its oldest
   * entry when it is full, unchanged otherwise.
   */
  function Evicted(chain: seq<NodeId>, maxEntries: nat): (kept: seq<NodeId>)
    requires 0 < maxEntries
    ensures |chain| <= maxEntries ==> |kept| < maxEntries
  {
    if |chain| < maxEntries then chain else chain[1..]
  }
}
