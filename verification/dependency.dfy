/** `detect_dependencies_regex` (src/dependency.py:5-66): for every source
    definition and every distinct catalog name, in the order of the name
    map, the detector skips the source's own name and its local names,
    looks for the name in the source text (quoted form first, then as a
    bare word) and, when it is found, emits one edge to every definition
    carrying that name. */
module Dependency {
  import opened Options
  import opened Sequences
  import opened Text
  import opened Position
  import opened Patterns
  import opened Catalog
  import opened LocalNames

  datatype EdgeType = Calls | UsesParameter | References

  datatype Confidence = High | Medium | Low

  /** `evidence`: the catalog name (not the matched text) and where the
      reporting match starts. */
  datatype Evidence = Evidence(matchName: string, line: int, colStart: int)

  datatype Edge = Edge(fromId: string, toId: string, edgeType: EdgeType, confidence: Confidence, evidence: Evidence)

  /** The match the evidence comes from: its start, and whether it is the
      quoted-identifier match. */
  datatype Hit = Hit(pos: nat, quoted: bool)

  /** `quoted_match or word_match`: the quoted search when it succeeds,
      otherwise the bare-word search. */
  function FindReference(t: string, name: string): (r: Option<Hit>)
    ensures r.Some? ==> r.value.pos <= |t|
  {
    match Search(Quoted, t, name, 0)
    case Some(q) => Some(Hit(q, true))
    case None =>
      match Search(Bare, t, name, 0)
      case Some(b) => Some(Hit(b, false))
      case None => None
  }

  /** The name is found exactly when the quoted or the bare-word pattern
      occurs; the hit is quoted exactly when the quoted pattern occurs, and
      it lies at the leftmost match of the pattern it comes from. */
  lemma FindReferenceRule(t: string, name: string)
    ensures FindReference(t, name).Some? <==> Occurs(Quoted, t, name) || Occurs(Bare, t, name)
    ensures FindReference(t, name).Some? ==> (FindReference(t, name).value.quoted <==> Occurs(Quoted, t, name))
    ensures FindReference(t, name).Some? ==>
      var h := FindReference(t, name).value;
      var pat := if h.quoted then Quoted else Bare;
      MatchesAt(pat, t, name, h.pos) && forall s :: MatchesAt(pat, t, name, s) ==> h.pos <= s
  {
    SearchFindsLeftmost(Quoted, t, name);
    SearchFindsLeftmost(Bare, t, name);
  }

  /** The edge type (src/dependency.py:38-43). */
  function EdgeTypeOf(t: string, name: string, target: Node): EdgeType {
    if Search(Call, t, name, 0).Some? then Calls
    else if target.kind == Parameter then UsesParameter
    else References
  }

  /** `calls` exactly when the name is followed by optional whitespace and
      `(` somewhere in the text, whatever the target's kind; otherwise
      `uses_parameter` exactly for parameter targets. */
  lemma EdgeTypeRule(t: string, name: string, target: Node)
    ensures EdgeTypeOf(t, name, target) == Calls <==> Occurs(Call, t, name)
    ensures EdgeTypeOf(t, name, target) == UsesParameter <==> !Occurs(Call, t, name) && target.kind == Parameter
    ensures EdgeTypeOf(t, name, target) == References <==> !Occurs(Call, t, name) && target.kind != Parameter
  {
    SearchFindsLeftmost(Call, t, name);
  }

  /** The confidence (src/dependency.py:46-49): `high` exactly for a
      quoted match, whatever the number of targets; otherwise `low` for a
      shared name and `medium` for a unique one. */
  function ConfidenceOf(quoted: bool, targetCount: nat): (c: Confidence)
    ensures c == High <==> quoted
    ensures c == Low <==> !quoted && targetCount > 1
    ensures c == Medium <==> !quoted && targetCount <= 1
  {
    if quoted then High else if targetCount > 1 then Low else Medium
  }

  /** The evidence for a match of `name` starting at `pos`
      (src/dependency.py:51-55): a line that exists, and a column that is
      the distance back to the start of that line. */
  function EvidenceAt(t: string, name: string, pos: nat): (e: Evidence)
    requires pos <= |t|
    ensures e.matchName == name
    ensures 1 <= e.line <= 1 + CountChar(t, '\n')
    ensures 0 <= e.colStart <= pos && (e.colStart == pos <==> '\n' !in t[..pos])
    ensures e.line == LineNumber(t, pos) && e.colStart == ColStart(t, pos)
    ensures LineNumber(t, pos - e.colStart) == e.line
  {
    LineNumberBounds(t, pos);
    ColumnOnSameLine(t, pos);
    Evidence(name, LineNumber(t, pos), ColStart(t, pos))
  }

  /** The edge from `source` to one target of `name`, out of `count`. */
  function EdgeTo(source: Node, name: string, hit: Hit, count: nat, target: Node): Edge
    requires hit.pos <= |source.mCode|
  {
    Edge(source.id, target.id, EdgeTypeOf(source.mCode, name, target), ConfidenceOf(hit.quoted, count),
         EvidenceAt(source.mCode, name, hit.pos))
  }

  /** One edge per target, in list order (src/dependency.py:36-64). */
  function FanOut(source: Node, name: string, hit: Hit, count: nat, targets: seq<Node>): seq<Edge>
    requires hit.pos <= |source.mCode|
  {
    if |targets| == 0 then []
    else FanOut(source, name, hit, count, targets[..|targets| - 1]) + [EdgeTo(source, name, hit, count, targets[|targets| - 1])]
  }

  /** The fan-out has one edge per target, the `j`-th going to the `j`-th
      target. */
  lemma {:induction false} FanOutShape(source: Node, name: string, hit: Hit, count: nat, targets: seq<Node>)
    requires hit.pos <= |source.mCode|
    ensures |FanOut(source, name, hit, count, targets)| == |targets|
    ensures forall j :: 0 <= j < |targets| ==> FanOut(source, name, hit, count, targets)[j] == EdgeTo(source, name, hit, count, targets[j])
  {
    if |targets| > 0 {
      var prefix := targets[..|targets| - 1];
      FanOutShape(source, name, hit, count, prefix);
      forall j | 0 <= j < |prefix| ensures targets[j] == prefix[j] {
      }
    }
  }

  /** The edges for one source and one name of the map
      (src/dependency.py:18-64): none for the source's own name or a local
      name (both compared exactly) or when the name is not found; otherwise
      the fan-out over all its targets. */
  function NameEdges(source: Node, locals: set<string>, name: string, targets: seq<Node>): seq<Edge> {
    if name == source.name || name in locals then []
    else match FindReference(source.mCode, name)
      case None => []
      case Some(hit) => FanOut(source, name, hit, |targets|, targets)
  }

  /** Exactly `|targets|` edges when the name is neither skipped nor
      missing, none otherwise; every edge leaves the source, the `j`-th
      goes to the `j`-th target, and all share the evidence of one match. */
  lemma NameEdgesFanOut(source: Node, locals: set<string>, name: string, targets: seq<Node>)
    ensures var r := NameEdges(source, locals, name, targets);
      var found := FindReference(source.mCode, name);
      |r| == (if name == source.name || name in locals || found.None? then 0 else |targets|)
    ensures var r := NameEdges(source, locals, name, targets);
      var found := FindReference(source.mCode, name);
      forall j :: 0 <= j < |r| ==>
        found.Some? && r[j] == EdgeTo(source, name, found.value, |targets|, targets[j])
        && r[j].fromId == source.id && r[j].toId == targets[j].id
        && r[j].evidence == EvidenceAt(source.mCode, name, found.value.pos)
  {
    var found := FindReference(source.mCode, name);
    if !(name == source.name || name in locals) && found.Some? {
      FanOutShape(source, name, found.value, |targets|, targets);
    }
  }

  /** The edges of one source over the map's entries, in map order. */
  function SourceEdges(source: Node, locals: set<string>, nm: NameMap): seq<Edge> {
    FlatMap((entry: (string, seq<Node>)) => NameEdges(source, locals, entry.0, entry.1), nm)
  }

  /** The edges of the given sources, each source's block in source order. */
  function AllEdges(sources: seq<Node>, nm: NameMap): seq<Edge> {
    FlatMap((source: Node) => SourceEdges(source, LocalNameSet(source.mCode), nm), sources)
  }

  /** The value `detect_dependencies_regex(nodes)` returns. */
  function Detect(nodes: seq<Node>): seq<Edge> {
    AllEdges(nodes, NameMapOf(nodes))
  }

  /** Edge order: the edges of consecutive groups of sources follow one
      another, so the output is grouped by source in input order. */
  lemma AllEdgesAppend(a: seq<Node>, b: seq<Node>, nm: NameMap)
    ensures AllEdges(a + b, nm) == AllEdges(a, nm) + AllEdges(b, nm)
  {
    FlatMapAppend((source: Node) => SourceEdges(source, LocalNameSet(source.mCode), nm), a, b);
  }

  /** Edge order within a source: the edges for consecutive groups of map
      entries follow one another, in the map's insertion order. */
  lemma SourceEdgesAppend(source: Node, locals: set<string>, m1: NameMap, m2: NameMap)
    ensures SourceEdges(source, locals, m1 + m2) == SourceEdges(source, locals, m1) + SourceEdges(source, locals, m2)
  {
    FlatMapAppend((entry: (string, seq<Node>)) => NameEdges(source, locals, entry.0, entry.1), m1, m2);
  }

  /** Scanning one more map entry appends that entry's edges. */
  lemma SourceEdgesSnoc(source: Node, locals: set<string>, nm: NameMap, j: nat)
    requires j < |nm|
    ensures SourceEdges(source, locals, nm[..j + 1]) == SourceEdges(source, locals, nm[..j]) + NameEdges(source, locals, nm[j].0, nm[j].1)
  {
    assert nm[..j + 1][..j] == nm[..j];
  }

  /** Scanning one more source appends that source's edges. */
  lemma AllEdgesSnoc(sources: seq<Node>, nm: NameMap, i: nat)
    requires i < |sources|
    ensures AllEdges(sources[..i + 1], nm) == AllEdges(sources[..i], nm) + SourceEdges(sources[i], LocalNameSet(sources[i].mCode), nm)
  {
    assert sources[..i + 1][..i] == sources[..i];
  }

  /** An edge of one source comes from one entry of the map. */
  lemma SourceEdgesMembership(source: Node, locals: set<string>, nm: NameMap, e: Edge)
    ensures e in SourceEdges(source, locals, nm) <==> exists k :: 0 <= k < |nm| && e in NameEdges(source, locals, nm[k].0, nm[k].1)
  {
    FlatMapMembership((entry: (string, seq<Node>)) => NameEdges(source, locals, entry.0, entry.1), nm, e);
  }

  /** An edge of the output comes from one source. */
  lemma AllEdgesMembership(sources: seq<Node>, nm: NameMap, e: Edge)
    ensures e in AllEdges(sources, nm) <==>
      exists i :: 0 <= i < |sources| && e in SourceEdges(sources[i], LocalNameSet(sources[i].mCode), nm)
  {
    FlatMapMembership((source: Node) => SourceEdges(source, LocalNameSet(source.mCode), nm), sources, e);
  }

  /** Why an edge from `source` to `target` is emitted: the target's name
      is neither the source's own name nor one of its local names, it is
      found in the source's text, and the edge carries the type, the
      confidence (counting every definition of that name) and the evidence
      of that finding. */
  ghost predicate Justified(nodes: seq<Node>, source: Node, target: Node, e: Edge) {
    var found := FindReference(source.mCode, target.name);
    target.name != source.name && target.name !in LocalNameSet(source.mCode) && found.Some?
    && e == EdgeTo(source, target.name, found.value, |NodesNamed(nodes, target.name)|, target)
  }

  /** An edge of one name's fan-out is justified by one of its targets. */
  lemma NameEdgeJustified(nodes: seq<Node>, source: Node, k: nat, e: Edge)
    requires k < |NameMapOf(nodes)|
    requires e in NameEdges(source, LocalNameSet(source.mCode), NameMapOf(nodes)[k].0, NameMapOf(nodes)[k].1)
    ensures exists t :: t in nodes && Justified(nodes, source, t, e)
  {
    var nm := NameMapOf(nodes);
    var name, targets := nm[k].0, nm[k].1;
    var locals := LocalNameSet(source.mCode);
    NameEdgesFanOut(source, locals, name, targets);
    var r := NameEdges(source, locals, name, targets);
    var j :| 0 <= j < |r| && r[j] == e;
    NameMapEntries(nodes);
    NameMapOfIndexesNodes(nodes);
    assert targets == NodesNamed(nodes, name);
    var t := targets[j];
    assert t in nodes && t.name == name;
    assert Justified(nodes, source, t, e);
  }

  /** Soundness: every edge leaves some input definition and is justified
      by a definition that carries the name it was found by. */
  lemma DetectSound(nodes: seq<Node>, e: Edge)
    requires e in Detect(nodes)
    ensures exists i, t :: 0 <= i < |nodes| && t in nodes && Justified(nodes, nodes[i], t, e)
  {
    var nm := NameMapOf(nodes);
    AllEdgesMembership(nodes, nm, e);
    var i :| 0 <= i < |nodes| && e in SourceEdges(nodes[i], LocalNameSet(nodes[i].mCode), nm);
    SourceEdgesMembership(nodes[i], LocalNameSet(nodes[i].mCode), nm, e);
    var k :| 0 <= k < |nm| && e in NameEdges(nodes[i], LocalNameSet(nodes[i].mCode), nm[k].0, nm[k].1);
    NameEdgeJustified(nodes, nodes[i], k, e);
  }

  /** Completeness: every justified edge from an input definition to an
      input definition is emitted. */
  lemma DetectComplete(nodes: seq<Node>, i: nat, t: Node, e: Edge)
    requires i < |nodes| && t in nodes
    requires Justified(nodes, nodes[i], t, e)
    ensures e in Detect(nodes)
  {
    var nm := NameMapOf(nodes);
    var source := nodes[i];
    var locals := LocalNameSet(source.mCode);
    NameMapOfIndexesNodes(nodes);
    var b :| 0 <= b < |nodes| && nodes[b] == t;
    var k := KeyIndex(nm, t.name).value;
    var targets := nm[k].1;
    assert targets == NodesNamed(nodes, t.name);
    NodesNamedHas(nodes, t.name, b);
    var j :| 0 <= j < |targets| && targets[j] == t;
    NameEdgesFanOut(source, locals, t.name, targets);
    assert NameEdges(source, locals, t.name, targets)[j] == e;
    SourceEdgesMembership(source, locals, nm, e);
    AllEdgesMembership(nodes, nm, e);
  }

  /** A node called `key` is among the nodes called `key`. */
  lemma {:induction false} NodesNamedHas(nodes: seq<Node>, key: string, b: nat)
    requires b < |nodes| && nodes[b].name == key
    ensures exists j :: 0 <= j < |NodesNamed(nodes, key)| && NodesNamed(nodes, key)[j] == nodes[b]
  {
    var prefix := nodes[..|nodes| - 1];
    if b < |nodes| - 1 {
      NodesNamedHas(prefix, key, b);
      var j :| 0 <= j < |NodesNamed(prefix, key)| && NodesNamed(prefix, key)[j] == prefix[b];
      assert NodesNamed(nodes, key)[j] == nodes[b];
    } else {
      assert NodesNamed(nodes, key)[|NodesNamed(prefix, key)|] == nodes[b];
    }
  }

  /** No edge joins definitions of the same name, the skip of the source's
      own name being exact; so with unique ids no edge is a self-loop. */
  lemma NoSelfLoops(nodes: seq<Node>)
    requires forall a, b :: 0 <= a < |nodes| && 0 <= b < |nodes| && nodes[a].id == nodes[b].id ==> a == b
    ensures forall e :: e in Detect(nodes) ==> e.fromId != e.toId
  {
    forall e | e in Detect(nodes) ensures e.fromId != e.toId {
      DetectSound(nodes, e);
      var i, t :| 0 <= i < |nodes| && t in nodes && Justified(nodes, nodes[i], t, e);
      var b :| 0 <= b < |nodes| && nodes[b] == t;
      assert nodes[b].name != nodes[i].name;
    }
  }

  /** No edge goes from a definition to a definition whose name it binds
      locally or carries itself: the edge's target is a definition whose
      name neither skip caught, and the evidence names that target. */
  lemma LocalNamesNotTargeted(nodes: seq<Node>, e: Edge)
    requires e in Detect(nodes)
    ensures exists i, t :: (0 <= i < |nodes| && t in nodes && e.fromId == nodes[i].id && e.toId == t.id
      && t.name !in LocalNameSet(nodes[i].mCode) && t.name != nodes[i].name
      && e.evidence.matchName == t.name)
  {
    DetectSound(nodes, e);
    var i, t :| 0 <= i < |nodes| && t in nodes && Justified(nodes, nodes[i], t, e);
  }

  /** Appending to an accumulated list regroups as appending to its tail;
      a separate lemma keeps the loop bodies' proofs small. */
  lemma AppendAssoc(a: seq<Edge>, b: seq<Edge>, c: seq<Edge>)
    ensures a + b + c == a + (b + c)
  {
  }

  /** One pass of the loop over the name map (src/dependency.py:18-64):
      the skips, the two searches and the inner loop over the targets,
      appending to `edges`. */
  method ScanName(edges: seq<Edge>, node: Node, localNames: set<string>, name: string, targets: seq<Node>)
    returns (out: seq<Edge>)
    ensures out == edges + NameEdges(node, localNames, name, targets)
  {
    out := edges;
    if name == node.name {
      return;
    }
    if name in localNames {
      return;
    }
    var mCode := node.mCode;
    var quotedMatch := Search(Quoted, mCode, name, 0);
    var wordMatch := Search(Bare, mCode, name, 0);
    var matchObj := if quotedMatch.Some? then quotedMatch else wordMatch;
    if matchObj.None? {
      return;
    }
    ghost var hit := Hit(matchObj.value, quotedMatch.Some?);
    assert FindReference(mCode, name) == Some(hit);
    for k := 0 to |targets|
      invariant out == edges + FanOut(node, name, hit, |targets|, targets[..k])
    {
      assert targets[..k + 1][..k] == targets[..k];
      var targetNode := targets[k];
      var depType;
      if Search(Call, mCode, name, 0).Some? {
        depType := Calls;
      } else if targetNode.kind == Parameter {
        depType := UsesParameter;
      } else {
        depType := References;
      }
      var confidence;
      if quotedMatch.Some? {
        confidence := High;
      } else {
        confidence := if |targets| > 1 then Low else Medium;
      }
      var pos := matchObj.value;
      var evidence := Evidence(name, LineNumber(mCode, pos), ColStart(mCode, pos));
      var edge := Edge(node.id, targetNode.id, depType, confidence, evidence);
      assert edge == EdgeTo(node, name, hit, |targets|, targetNode);
      AppendAssoc(edges, FanOut(node, name, hit, |targets|, targets[..k]), [edge]);
      out := out + [edge];
    }
    assert targets[..|targets|] == targets;
  }

  /** One pass of the loop over the nodes (src/dependency.py:13-64): the
      node's local names, then the walk over the name map in insertion
      order, appending to `edges`. */
  method ScanNode(edges: seq<Edge>, node: Node, nameMap: NameMap) returns (out: seq<Edge>)
    ensures out == edges + SourceEdges(node, LocalNameSet(node.mCode), nameMap)
  {
    out := edges;
    var localNames := ExtractLocalNames(node.mCode);
    for j := 0 to |nameMap|
      invariant out == edges + SourceEdges(node, localNames, nameMap[..j])
    {
      SourceEdgesSnoc(node, localNames, nameMap, j);
      var name, targets := nameMap[j].0, nameMap[j].1;
      AppendAssoc(edges, SourceEdges(node, localNames, nameMap[..j]), NameEdges(node, localNames, name, targets));
      out := ScanName(out, node, localNames, name, targets);
    }
    assert nameMap[..|nameMap|] == nameMap;
  }

  /** `detect_dependencies_regex`: build the name map, then scan every node
      in input order. */
  method DetectDependencies(nodes: seq<Node>) returns (edges: seq<Edge>)
    ensures edges == Detect(nodes)
  {
    edges := [];
    var nameMap := BuildNameMap(nodes);
    for i := 0 to |nodes|
      invariant edges == AllEdges(nodes[..i], nameMap)
    {
      AllEdgesSnoc(nodes, nameMap, i);
      edges := ScanNode(edges, nodes[i], nameMap);
    }
    assert nodes[..|nodes|] == nodes;
  }
}
