/** QuerySnapshot as an object: its maps and lists live on the heap and may be shared between
    views. Committing a batch allocates; it never writes to anything a view already holds. */
module Snapshots {
  import opened Paths
  import opened Slices
  import opened Documents
  import opened Views

  // A Go map.
  class Table<V> {
    var entries: map<string, V>

    constructor (entries: map<string, V>)
      ensures this.entries == entries
    {
      this.entries := entries;
    }
  }

  // A Go string slice that is only appended to while its owner is unpublished.
  class PathList {
    var items: seq<string>

    constructor (items: seq<string>)
      ensures this.items == items
    {
      this.items := items;
    }
  }

  class QuerySnapshot {
    var header: Header
    var nodes: Table<QueryNode>
    var overrides: Table?<QueryNode>
    var baseBytes: int
    var estimatedBytes: int
    var order: PathList
    var flowGenerations: Table<string>
    var stale: array<string>  // the stale scopes are stale[..staleCount]
    var staleCount: nat

    ghost function Footprint(): set<object?>
      reads this
    {
      if overrides == null then {this, nodes, order, flowGenerations, stale}
      else {this, nodes, overrides, order, flowGenerations, stale}
    }

    ghost predicate Valid()
      reads this
    {
      staleCount <= stale.Length
    }

    // What the object answers, as a value.
    ghost function Contents(): View
      requires Valid()
      reads this, Footprint()
    {
      View(header, nodes.entries, if overrides == null then map[] else overrides.entries,
           baseBytes, estimatedBytes, order.items, flowGenerations.entries, stale[..staleCount])
    }

    // An empty snapshot of a selection.
    constructor Empty(header: Header)
      ensures Valid() && fresh(Footprint())
      ensures Contents() == View(header, map[], map[], 0, 1024, [], map[], [])
      ensures overrides == null && staleCount == 0
    {
      this.header := header;
      nodes := new Table(map[]);
      overrides := null;
      baseBytes, estimatedBytes := 0, 1024;
      order := new PathList([]);
      flowGenerations := new Table(map[]);
      stale, staleCount := new string[0], 0;
    }

    // A new object that refers to these maps and slices, as a struct copy with some fields replaced does.
    constructor Of(
        header: Header, nodes: Table<QueryNode>, overrides: Table?<QueryNode>, baseBytes: int, estimatedBytes: int,
        order: PathList, flowGenerations: Table<string>, stale: array<string>, staleCount: nat)
      requires staleCount <= stale.Length
      ensures Valid()
      ensures Contents() ==
              View(header, nodes.entries, if overrides == null then map[] else overrides.entries,
                   baseBytes, estimatedBytes, order.items, flowGenerations.entries, stale[..staleCount])
      ensures this.nodes == nodes && this.overrides == overrides && this.order == order
      ensures this.flowGenerations == flowGenerations && this.stale == stale
    {
      this.header := header;
      this.nodes, this.overrides := nodes, overrides;
      this.baseBytes, this.estimatedBytes := baseBytes, estimatedBytes;
      this.order, this.flowGenerations := order, flowGenerations;
      this.stale, this.staleCount := stale, staleCount;
    }

    // QuerySnapshot.Node: the overlay first, then the base.
    method Node(path: string) returns (node: QueryNode, found: bool)
      requires Valid()
      ensures found == Lookup(Contents(), path).Some?
      ensures node == NodeOrZero(Contents(), path)
    {
      if overrides != null && path in overrides.entries { return overrides.entries[path], true; }
      if path in nodes.entries { return nodes.entries[path], true; }
      return ZERO_NODE, false;
    }

    // QuerySnapshot.IsStale
    method Stale(path: string) returns (found: bool)
      requires Valid()
      ensures found == IsStale(Contents(), path)
    {
      ghost var scopes := stale[..staleCount];
      for i := 0 to staleCount
        invariant forall k | 0 <= k < i :: !Covers(stale[k], path)
      {
        if Covers(stale[i], path) {
          assert scopes[i] in scopes;
          return true;
        }
      }
      return false;
    }

    // QuerySnapshot.Paths: a copy of the order.
    method Paths() returns (paths: array<string>)
      requires Valid()
      ensures fresh(paths) && paths[..] == Contents().order
    {
      var items := order.items;
      paths := new string[|items|](i requires 0 <= i < |items| => items[i]);
    }

    // QuerySnapshot.StaleScopes: a copy of the stale list.
    method StaleScopes() returns (scopes: array<string>)
      requires Valid()
      ensures fresh(scopes) && scopes[..] == Contents().staleScopes
    {
      var items := stale[..staleCount];
      scopes := new string[|items|](i requires 0 <= i < |items| => items[i]);
    }
  }

  // A copy of the known scopes with more of them appended, sorted, then compacted in place.
  method SortedScopes(known: seq<string>, more: seq<string>) returns (items: array<string>, count: nat)
    ensures fresh(items) && count <= items.Length
    ensures items[..count] == Canonical(known + more)
  {
    var all := known + more;
    items := new string[|all|](i requires 0 <= i < |all| => all[i]);
    assert items[..] == all;
    SortStrings(items);
    count := CompactStrings(items);
  }

  // Copies a map entry by entry, in any order.
  method CopyInto(target: Table<QueryNode>, source: NodeMap)
    modifies target
    ensures target.entries == old(target.entries) + source
  {
    ghost var before := target.entries;
    var left := source.Keys;
    while left != {}
      invariant left <= source.Keys
      invariant target.entries.Keys == before.Keys + (source.Keys - left)
      invariant forall path | path in target.entries ::
                  target.entries[path] == if path in source.Keys - left then source[path] else before[path]
      decreases left
    {
      var path :| path in left;
      target.entries := target.entries[path := source[path]];
      left := left - {path};
    }
    assert target.entries == before + source;
  }

  // Adds up the sizes of the nodes of a map, in any order.
  method TotalSize(m: NodeMap) returns (extra: nat)
    ensures extra == MapSize(m)
  {
    extra := 0;
    var left := m;
    while left != map[]
      invariant extra + MapSize(left) == MapSize(m)
      decreases |left|
    {
      var path :| path in left;
      MapSizeWithout(left, path);
      extra := extra + NodeSize(left[path]);
      left := left - {path};
    }
  }
}
