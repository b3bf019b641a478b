/** The definitions the detector works on and the name -> nodes multimap it
    builds first (src/dependency.py:8-11). Python dictionaries keep
    insertion order, and the order of the edges depends on it, so the map is
    an association list whose keys appear in the order their names first
    occur among the nodes. */
module Catalog {
  import opened Options

  /** Only `parameter` is ever tested (src/dependency.py:40). */
  datatype Kind = Query | Function | Parameter

  /** A definition: opaque id, display name (not unique), kind and source text. */
  datatype Node = Node(id: string, name: string, kind: Kind, mCode: string)

  /** `name_map`: distinct names, each with the nodes that carry it. */
  type NameMap = seq<(string, seq<Node>)>

  /** The dictionary lookup: the position of `key` in the map. */
  function KeyIndex(nm: NameMap, key: string): (r: Option<nat>)
    ensures r.Some? ==> r.value < |nm| && nm[r.value].0 == key
    ensures r.None? ==> forall k :: 0 <= k < |nm| ==> nm[k].0 != key
  {
    if |nm| == 0 then None
    else if nm[|nm| - 1].0 == key then Some(|nm| - 1)
    else KeyIndex(nm[..|nm| - 1], key)
  }

  /** `name_map.setdefault(n["name"], []).append(n)`. */
  function SetDefaultAppend(nm: NameMap, n: Node): NameMap {
    match KeyIndex(nm, n.name)
    case Some(k) => nm[k := (nm[k].0, nm[k].1 + [n])]
    case None => nm + [(n.name, [n])]
  }

  /** The map after the loop over `nodes` (src/dependency.py:10-11). */
  function NameMapOf(nodes: seq<Node>): NameMap {
    if |nodes| == 0 then [] else SetDefaultAppend(NameMapOf(nodes[..|nodes| - 1]), nodes[|nodes| - 1])
  }

  /** The nodes called `key`, in input order. */
  function NodesNamed(nodes: seq<Node>, key: string): (r: seq<Node>)
    ensures forall i :: 0 <= i < |r| ==> r[i] in nodes && r[i].name == key
    ensures r == [] <==> forall i :: 0 <= i < |nodes| ==> nodes[i].name != key
  {
    if |nodes| == 0 then []
    else
      var last := nodes[|nodes| - 1];
      NodesNamed(nodes[..|nodes| - 1], key) + (if last.name == key then [last] else [])
  }

  /** The index of the first node called `key`, `|nodes|` when there is none. */
  function FirstIndexOfName(nodes: seq<Node>, key: string): (r: nat)
    ensures r <= |nodes|
    ensures r < |nodes| ==> nodes[r].name == key
    ensures forall i :: 0 <= i < r ==> nodes[i].name != key
  {
    if |nodes| == 0 then 0
    else if nodes[0].name == key then 0
    else 1 + FirstIndexOfName(nodes[1..], key)
  }

  /** Adding a node at the end leaves the first index of a name that already
      occurs unchanged; a new name first occurs at the new node. */
  lemma FirstIndexExtend(nodes: seq<Node>, n: Node, key: string)
    ensures FirstIndexOfName(nodes + [n], key) ==
      if FirstIndexOfName(nodes, key) < |nodes| then FirstIndexOfName(nodes, key)
      else if n.name == key then |nodes| else |nodes| + 1
  {
    var f := FirstIndexOfName(nodes, key);
    var g := FirstIndexOfName(nodes + [n], key);
    if f < |nodes| {
      assert (nodes + [n])[f] == nodes[f];
    } else {
      assert forall i :: 0 <= i < |nodes| ==> (nodes + [n])[i].name != key;
      assert (nodes + [n])[|nodes|] == n;
    }
  }

  /** The keys are listed in the order their names first occur (which also
      makes them distinct). */
  ghost predicate KeysInFirstOccurrenceOrder(nm: NameMap, nodes: seq<Node>) {
    forall a, b :: 0 <= a < b < |nm| ==> FirstIndexOfName(nodes, nm[a].0) < FirstIndexOfName(nodes, nm[b].0)
  }

  /** Every key is the name of some node. */
  ghost predicate KeysAreNames(nm: NameMap, nodes: seq<Node>) {
    forall k :: 0 <= k < |nm| ==> FirstIndexOfName(nodes, nm[k].0) < |nodes|
  }

  /** Each key holds exactly the nodes of that name, in input order. */
  ghost predicate ListsAreNodesNamed(nm: NameMap, nodes: seq<Node>) {
    forall k :: 0 <= k < |nm| ==> nm[k].1 == NodesNamed(nodes, nm[k].0)
  }

  /** Every node's name is a key. */
  ghost predicate CoversNodes(nm: NameMap, nodes: seq<Node>) {
    forall i :: 0 <= i < |nodes| ==> KeyIndex(nm, nodes[i].name).Some?
  }

  /** `nm` is the name map of `nodes`: its keys are distinct names of nodes,
      listed in the order the names first occur; each key holds exactly the
      nodes of that name in input order; and every node's name is a key. */
  ghost predicate IndexesNodes(nm: NameMap, nodes: seq<Node>) {
    KeysInFirstOccurrenceOrder(nm, nodes) && KeysAreNames(nm, nodes)
    && ListsAreNodesNamed(nm, nodes) && CoversNodes(nm, nodes)
  }

  /** What one `setdefault(...).append(n)` does to a map with distinct
      keys: existing keys keep their places and only the list under `n`'s
      name grows by `n`; a new name goes at the end with the list `[n]`. */
  lemma SetDefaultAppendShape(nm: NameMap, n: Node)
    requires forall a, b :: 0 <= a < b < |nm| ==> nm[a].0 != nm[b].0
    ensures var r := SetDefaultAppend(nm, n);
      |r| == (if KeyIndex(nm, n.name).Some? then |nm| else |nm| + 1)
      && (forall j :: 0 <= j < |nm| ==> r[j].0 == nm[j].0 && r[j].1 == nm[j].1 + (if nm[j].0 == n.name then [n] else []))
      && (KeyIndex(nm, n.name).None? ==> r[|nm|] == (n.name, [n]))
  {
  }

  /** How the first index and the per-name lists change when a node is
      appended to the input. */
  lemma ExtendFacts(prefix: seq<Node>, n: Node)
    ensures forall key ::
      FirstIndexOfName(prefix + [n], key) == (if FirstIndexOfName(prefix, key) < |prefix| then FirstIndexOfName(prefix, key) else if n.name == key then |prefix| else |prefix| + 1)
    ensures forall key :: NodesNamed(prefix + [n], key) == NodesNamed(prefix, key) + (if n.name == key then [n] else [])
  {
    forall key
      ensures FirstIndexOfName(prefix + [n], key) ==
        if FirstIndexOfName(prefix, key) < |prefix| then FirstIndexOfName(prefix, key)
        else if n.name == key then |prefix| else |prefix| + 1
    {
      FirstIndexExtend(prefix, n, key);
    }
    forall key
      ensures NodesNamed(prefix + [n], key) == NodesNamed(prefix, key) + (if n.name == key then [n] else [])
    {
      assert (prefix + [n])[..|prefix|] == prefix;
    }
  }

  /** A name that is not yet a key has not occurred among the nodes. */
  lemma NewNameIsNew(nm: NameMap, prefix: seq<Node>, name: string)
    requires CoversNodes(nm, prefix)
    requires KeyIndex(nm, name).None?
    ensures FirstIndexOfName(prefix, name) == |prefix|
  {
  }

  lemma StepKeysAreNames(nm: NameMap, prefix: seq<Node>, n: Node)
    requires KeysInFirstOccurrenceOrder(nm, prefix) && KeysAreNames(nm, prefix)
    ensures KeysAreNames(SetDefaultAppend(nm, n), prefix + [n])
  {
    SetDefaultAppendShape(nm, n);
    ExtendFacts(prefix, n);
  }

  lemma StepKeysInOrder(nm: NameMap, prefix: seq<Node>, n: Node)
    requires IndexesNodes(nm, prefix)
    ensures KeysInFirstOccurrenceOrder(SetDefaultAppend(nm, n), prefix + [n])
  {
    var r := SetDefaultAppend(nm, n);
    var nodes := prefix + [n];
    SetDefaultAppendShape(nm, n);
    ExtendFacts(prefix, n);
    forall a, b | 0 <= a < b < |r|
      ensures FirstIndexOfName(nodes, r[a].0) < FirstIndexOfName(nodes, r[b].0)
    {
      assert r[a].0 == nm[a].0;
      assert FirstIndexOfName(prefix, nm[a].0) < |prefix|;
      if b < |nm| {
        assert r[b].0 == nm[b].0;
      } else {
        NewNameIsNew(nm, prefix, n.name);
        assert r[b].0 == n.name;
      }
    }
  }

  lemma StepListsAreNodesNamed(nm: NameMap, prefix: seq<Node>, n: Node)
    requires IndexesNodes(nm, prefix)
    ensures ListsAreNodesNamed(SetDefaultAppend(nm, n), prefix + [n])
  {
    SetDefaultAppendShape(nm, n);
    ExtendFacts(prefix, n);
    if KeyIndex(nm, n.name).None? {
      NewNameIsNew(nm, prefix, n.name);
      assert NodesNamed(prefix, n.name) == [];
    }
  }

  lemma StepCoversNodes(nm: NameMap, prefix: seq<Node>, n: Node)
    requires KeysInFirstOccurrenceOrder(nm, prefix) && CoversNodes(nm, prefix)
    ensures CoversNodes(SetDefaultAppend(nm, n), prefix + [n])
  {
    var nodes := prefix + [n];
    var r := SetDefaultAppend(nm, n);
    SetDefaultAppendShape(nm, n);
    forall i | 0 <= i < |nodes| ensures KeyIndex(r, nodes[i].name).Some? {
      if i < |prefix| {
        assert nodes[i] == prefix[i];
        var k := KeyIndex(nm, prefix[i].name).value;
        assert r[k].0 == nodes[i].name;
      } else if KeyIndex(nm, n.name).Some? {
        var k := KeyIndex(nm, n.name).value;
        assert r[k].0 == nodes[i].name;
      } else {
        assert r[|nm|].0 == nodes[i].name;
      }
    }
  }

  /** One step of the loop keeps the map faithful to the nodes seen so far. */
  lemma IndexesNodesStep(nm: NameMap, prefix: seq<Node>, n: Node)
    requires IndexesNodes(nm, prefix)
    ensures IndexesNodes(SetDefaultAppend(nm, n), prefix + [n])
  {
    StepKeysAreNames(nm, prefix, n);
    StepKeysInOrder(nm, prefix, n);
    StepListsAreNodesNamed(nm, prefix, n);
    StepCoversNodes(nm, prefix, n);
  }

  /** The map built by the loop is the name map of the nodes. */
  lemma {:induction false} NameMapOfIndexesNodes(nodes: seq<Node>)
    ensures IndexesNodes(NameMapOf(nodes), nodes)
  {
    if |nodes| > 0 {
      var prefix := nodes[..|nodes| - 1];
      assert nodes == prefix + [nodes[|nodes| - 1]];
      NameMapOfIndexesNodes(prefix);
      IndexesNodesStep(NameMapOf(prefix), prefix, nodes[|nodes| - 1]);
    }
  }

  /** Consequences used by the detector: the keys are distinct, every
      target list is non-empty and holds nodes of the input with that name. */
  lemma NameMapEntries(nodes: seq<Node>)
    ensures var nm := NameMapOf(nodes);
      (forall a, b :: 0 <= a < b < |nm| ==> nm[a].0 != nm[b].0)
      && (forall k :: 0 <= k < |nm| ==> |nm[k].1| >= 1)
      && (forall k, i :: 0 <= k < |nm| && 0 <= i < |nm[k].1| ==> nm[k].1[i] in nodes && nm[k].1[i].name == nm[k].0)
  {
    var nm := NameMapOf(nodes);
    NameMapOfIndexesNodes(nodes);
    forall k | 0 <= k < |nm| ensures |nm[k].1| >= 1 {
      var f := FirstIndexOfName(nodes, nm[k].0);
      assert nodes[f].name == nm[k].0;
    }
  }

  /** The loop of src/dependency.py:10-11 over the nodes, looking each
      name up and appending the node to its list. */
  method BuildNameMap(nodes: seq<Node>) returns (nameMap: NameMap)
    ensures nameMap == NameMapOf(nodes)
  {
    nameMap := [];
    for i := 0 to |nodes|
      invariant nameMap == NameMapOf(nodes[..i])
    {
      var n := nodes[i];
      assert nodes[..i + 1] == nodes[..i] + [n];
      var found := KeyIndex(nameMap, n.name);
      if found.Some? {
        var k := found.value;
        nameMap := nameMap[k := (nameMap[k].0, nameMap[k].1 + [n])];
      } else {
        nameMap := nameMap + [(n.name, [n])];
      }
    }
    assert nodes[..|nodes|] == nodes;
  }
}
