/**
 * The research-network graph of the dashboard (app.py:175-194): starting from the selected
 * keyword and the rows of the co-keyword query, build the node list and the edge list that
 * are handed to the graph widget. Faculty names and co-keywords share one `seen` set; the
 * selected keyword itself is never put into it.
 */
module Network {

  /** A node of the graph widget; `labelText` is its `label` (a reserved word in Dafny). */
  datatype Node = Node(id: string, labelText: string, shape: string, color: string)

  datatype Edge = Edge(source: string, target: string)

  /** One row of the co-keyword query: a faculty member and the other keywords they work on. */
  datatype Entry = Entry(faculty: string, coKeywords: seq<string>)

  /** The three variables of the loop. */
  datatype Graph = Graph(nodes: seq<Node>, edges: seq<Edge>, seen: set<string>)

  function RootNode(keyword: string): Node { Node(keyword, keyword, "ellipse", "red") }

  function FacultyNode(faculty: string): Node { Node(faculty, faculty, "box", "lightblue") }

  function CoKeywordNode(coKeyword: string): Node { Node(coKeyword, coKeyword, "ellipse", "lightgreen") }

  // ---------------------------------------------------------------------------------------
  // One step of the loop at a time.

  /** app.py:175-179: only the root node, nothing seen yet. */
  function Start(keyword: string): Graph
  {
    Graph([RootNode(keyword)], [], {})
  }

  /** app.py:185-188: a faculty name not yet seen gets a node and an edge to the keyword. */
  function AddFaculty(g: Graph, keyword: string, faculty: string): Graph
  {
    if faculty in g.seen then g
    else Graph(g.nodes + [FacultyNode(faculty)], g.edges + [Edge(faculty, keyword)], g.seen + {faculty})
  }

  /** app.py:190-194: a co-keyword gets a node when not yet seen, and an edge in every case. */
  function AddCoKeyword(g: Graph, faculty: string, coKeyword: string): Graph
  {
    Graph(if coKeyword in g.seen then g.nodes else g.nodes + [CoKeywordNode(coKeyword)],
          g.edges + [Edge(faculty, coKeyword)],
          g.seen + {coKeyword})
  }

  function AddCoKeywords(g: Graph, faculty: string, cs: seq<string>): Graph
  {
    if cs == [] then g else AddCoKeyword(AddCoKeywords(g, faculty, cs[..|cs| - 1]), faculty, cs[|cs| - 1])
  }

  function AddEntry(g: Graph, keyword: string, e: Entry): Graph
  {
    AddCoKeywords(AddFaculty(g, keyword, e.faculty), e.faculty, e.coKeywords)
  }

  /** The loop's variables after the rows `entries`. */
  function Run(keyword: string, entries: seq<Entry>): Graph
  {
    if entries == [] then Start(keyword)
    else AddEntry(Run(keyword, entries[..|entries| - 1]), keyword, entries[|entries| - 1])
  }

  // ---------------------------------------------------------------------------------------
  // Reference definitions the loop is measured against.

  function Elements(cs: seq<string>): set<string>
  {
    if cs == [] then {} else Elements(cs[..|cs| - 1]) + {cs[|cs| - 1]}
  }

  /** Every faculty name and co-keyword of the rows. */
  function Names(entries: seq<Entry>): set<string>
  {
    if entries == [] then {}
    else
      var e := entries[|entries| - 1];
      Names(entries[..|entries| - 1]) + {e.faculty} + Elements(e.coKeywords)
  }

  function Ids(ns: seq<Node>): set<string>
  {
    if ns == [] then {} else Ids(ns[..|ns| - 1]) + {ns[|ns| - 1].id}
  }

  /** Row `i` names a faculty member that no earlier row has named, as faculty or as co-keyword. */
  predicate NewFaculty(entries: seq<Entry>, i: nat)
    requires i < |entries|
  {
    entries[i].faculty !in Names(entries[..i])
  }

  function NewFacultyCount(entries: seq<Entry>): nat
  {
    if entries == [] then 0
    else NewFacultyCount(entries[..|entries| - 1]) + if NewFaculty(entries, |entries| - 1) then 1 else 0
  }

  function CoKeywordTotal(entries: seq<Entry>): nat
  {
    if entries == [] then 0
    else CoKeywordTotal(entries[..|entries| - 1]) + |entries[|entries| - 1].coKeywords|
  }

  function CoKeywordEdges(faculty: string, cs: seq<string>): seq<Edge>
  {
    if cs == [] then [] else CoKeywordEdges(faculty, cs[..|cs| - 1]) + [Edge(faculty, cs[|cs| - 1])]
  }

  /** What the node list guarantees: the root first, then distinct ids that are exactly `seen`. */
  predicate WellFormed(keyword: string, g: Graph)
  {
    && |g.nodes| >= 1
    && g.nodes[0] == RootNode(keyword)
    && (forall p, q :: 1 <= p < q < |g.nodes| ==> g.nodes[p].id != g.nodes[q].id)
    && Ids(g.nodes[1..]) == g.seen
    && (forall e :: e in g.edges ==> e.source in g.seen && (e.target == keyword || e.target in g.seen))
  }

  // ---------------------------------------------------------------------------------------
  // The loop.

  /** The graph construction of app.py:175-194, with the query rows passed in. */
  method BuildNetwork(keyword: string, entries: seq<Entry>) returns (nodes: seq<Node>, edges: seq<Edge>)
    ensures Graph(nodes, edges, Names(entries)) == Run(keyword, entries)
    ensures |nodes| >= 1 && nodes[0] == RootNode(keyword)
    ensures forall p, q :: 1 <= p < q < |nodes| ==> nodes[p].id != nodes[q].id
    ensures Ids(nodes) == {keyword} + Names(entries)
    ensures forall e :: e in edges ==> e.source in Ids(nodes) && e.target in Ids(nodes)
    ensures |edges| == NewFacultyCount(entries) + CoKeywordTotal(entries)
  {
    nodes := [RootNode(keyword)];
    edges := [];
    var seen: set<string> := {};
    for i := 0 to |entries|
      invariant Graph(nodes, edges, seen) == Run(keyword, entries[..i])
    {
      var faculty := entries[i].faculty;
      var coKeywords := entries[i].coKeywords;
      ghost var afterFaculty := AddFaculty(Run(keyword, entries[..i]), keyword, faculty);
      if faculty !in seen {
        nodes := nodes + [FacultyNode(faculty)];
        edges := edges + [Edge(faculty, keyword)];
        seen := seen + {faculty};
      }
      for j := 0 to |coKeywords|
        invariant Graph(nodes, edges, seen) == AddCoKeywords(afterFaculty, faculty, coKeywords[..j])
      {
        var coKw := coKeywords[j];
        assert coKeywords[..j + 1][..j] == coKeywords[..j];
        if coKw !in seen {
          nodes := nodes + [CoKeywordNode(coKw)];
          seen := seen + {coKw};
        }
        edges := edges + [Edge(faculty, coKw)];
      }
      assert coKeywords[..|coKeywords|] == coKeywords;
      assert entries[..i + 1][..i] == entries[..i];
    }
    assert entries[..|entries|] == entries;
    RunWellFormed(keyword, entries);
    RunSeen(keyword, entries);
    RunEdgeCount(keyword, entries);
    IdsOfConcat([RootNode(keyword)], nodes[1..]);
    assert nodes == [RootNode(keyword)] + nodes[1..];
  }

  // ---------------------------------------------------------------------------------------
  // Facts about the reference definitions.

  lemma {:induction false} ElementsMembers(cs: seq<string>, c: string)
    ensures c in Elements(cs) <==> c in cs
  {
    if cs != [] {
      ElementsMembers(cs[..|cs| - 1], c);
      assert cs == cs[..|cs| - 1] + [cs[|cs| - 1]];
    }
  }

  lemma {:induction false} IdsMembers(ns: seq<Node>, x: string)
    ensures x in Ids(ns) <==> exists k :: 0 <= k < |ns| && ns[k].id == x
  {
    if ns != [] {
      var init := ns[..|ns| - 1];
      IdsMembers(init, x);
      if x in Ids(init) {
        var k :| 0 <= k < |init| && init[k].id == x;
        assert ns[k] == init[k];
      }
      if exists k :: 0 <= k < |ns| && ns[k].id == x {
        var k :| 0 <= k < |ns| && ns[k].id == x;
        if k < |init| {
          assert init[k] == ns[k];
        }
      }
    }
  }

  lemma {:induction false} IdsOfConcat(a: seq<Node>, b: seq<Node>)
    ensures Ids(a + b) == Ids(a) + Ids(b)
  {
    if b != [] {
      var init := b[..|b| - 1];
      IdsOfConcat(a, init);
      assert (a + b)[..|a + b| - 1] == a + init;
      assert (a + b)[|a + b| - 1] == b[|b| - 1];
    } else {
      assert a + b == a;
    }
  }

  // ---------------------------------------------------------------------------------------
  // The loop keeps the node list well formed.

  lemma AddFacultyWellFormed(keyword: string, g: Graph, faculty: string)
    requires WellFormed(keyword, g)
    ensures WellFormed(keyword, AddFaculty(g, keyword, faculty))
  {
    if faculty !in g.seen {
      AppendFreshNode(keyword, g.nodes, FacultyNode(faculty));
    }
  }

  lemma AddCoKeywordWellFormed(keyword: string, g: Graph, faculty: string, c: string)
    requires WellFormed(keyword, g) && faculty in g.seen
    ensures WellFormed(keyword, AddCoKeyword(g, faculty, c))
  {
    if c !in g.seen {
      AppendFreshNode(keyword, g.nodes, CoKeywordNode(c));
    }
  }

  /** Appending a node whose id is not among the ids after the root keeps them distinct. */
  lemma AppendFreshNode(keyword: string, nodes: seq<Node>, n: Node)
    requires |nodes| >= 1 && n.id !in Ids(nodes[1..])
    requires forall p, q :: 1 <= p < q < |nodes| ==> nodes[p].id != nodes[q].id
    ensures forall p, q :: 1 <= p < q < |nodes + [n]| ==> (nodes + [n])[p].id != (nodes + [n])[q].id
    ensures Ids((nodes + [n])[1..]) == Ids(nodes[1..]) + {n.id}
  {
    var next := nodes + [n];
    assert next[1..] == nodes[1..] + [n];
    assert next[1..][..|next[1..]| - 1] == nodes[1..];
    forall p | 1 <= p < |nodes| ensures nodes[p].id != n.id {
      IdsMembers(nodes[1..], nodes[p].id);
      assert nodes[1..][p - 1] == nodes[p];
    }
  }

  lemma {:induction false} AddCoKeywordsWellFormed(keyword: string, g: Graph, faculty: string, cs: seq<string>)
    requires WellFormed(keyword, g) && faculty in g.seen
    ensures WellFormed(keyword, AddCoKeywords(g, faculty, cs))
    ensures AddCoKeywords(g, faculty, cs).seen == g.seen + Elements(cs)
  {
    if cs != [] {
      var init := cs[..|cs| - 1];
      AddCoKeywordsWellFormed(keyword, g, faculty, init);
      AddCoKeywordWellFormed(keyword, AddCoKeywords(g, faculty, init), faculty, cs[|cs| - 1]);
    }
  }

  /** After any rows, the node list is well formed. */
  lemma {:induction false} RunWellFormed(keyword: string, entries: seq<Entry>)
    ensures WellFormed(keyword, Run(keyword, entries))
  {
    if entries == [] {
      assert Start(keyword).nodes[1..] == [];
    } else {
      var init := entries[..|entries| - 1];
      var e := entries[|entries| - 1];
      RunWellFormed(keyword, init);
      AddFacultyWellFormed(keyword, Run(keyword, init), e.faculty);
      AddCoKeywordsWellFormed(keyword, AddFaculty(Run(keyword, init), keyword, e.faculty), e.faculty, e.coKeywords);
    }
  }

  /** `seen` ends up holding every faculty name and co-keyword of the rows, and nothing else. */
  lemma {:induction false} RunSeen(keyword: string, entries: seq<Entry>)
    ensures Run(keyword, entries).seen == Names(entries)
  {
    if entries != [] {
      var init := entries[..|entries| - 1];
      var e := entries[|entries| - 1];
      RunSeen(keyword, init);
      RunWellFormed(keyword, init);
      AddFacultyWellFormed(keyword, Run(keyword, init), e.faculty);
      AddCoKeywordsWellFormed(keyword, AddFaculty(Run(keyword, init), keyword, e.faculty), e.faculty, e.coKeywords);
    }
  }

  // ---------------------------------------------------------------------------------------
  // The edges.

  lemma {:induction false} AddCoKeywordsEdges(g: Graph, faculty: string, cs: seq<string>)
    ensures AddCoKeywords(g, faculty, cs).edges == g.edges + CoKeywordEdges(faculty, cs)
  {
    if cs != [] {
      AddCoKeywordsEdges(g, faculty, cs[..|cs| - 1]);
    }
  }

  /**
   * The edges row `i` contributes: the faculty-to-keyword edge exactly when the row names a new
   * faculty member, then one edge per co-keyword, seen before or not.
   */
  lemma RowEdges(keyword: string, entries: seq<Entry>, i: nat)
    requires i < |entries|
    ensures Run(keyword, entries[..i + 1]).edges ==
      Run(keyword, entries[..i]).edges
      + (if NewFaculty(entries, i) then [Edge(entries[i].faculty, keyword)] else [])
      + CoKeywordEdges(entries[i].faculty, entries[i].coKeywords)
  {
    assert entries[..i + 1][..i] == entries[..i];
    RunSeen(keyword, entries[..i]);
    AddCoKeywordsEdges(AddFaculty(Run(keyword, entries[..i]), keyword, entries[i].faculty),
                       entries[i].faculty, entries[i].coKeywords);
  }

  lemma {:induction false} CoKeywordEdgesLength(faculty: string, cs: seq<string>)
    ensures |CoKeywordEdges(faculty, cs)| == |cs|
  {
    if cs != [] {
      CoKeywordEdgesLength(faculty, cs[..|cs| - 1]);
    }
  }

  /** One edge per new faculty member plus one edge per (faculty, co-keyword) pair of the input. */
  lemma {:induction false} RunEdgeCount(keyword: string, entries: seq<Entry>)
    ensures |Run(keyword, entries).edges| == NewFacultyCount(entries) + CoKeywordTotal(entries)
  {
    if entries != [] {
      var n := |entries| - 1;
      RunEdgeCount(keyword, entries[..n]);
      RowEdges(keyword, entries, n);
      assert entries[..n + 1] == entries;
      CoKeywordEdgesLength(entries[n].faculty, entries[n].coKeywords);
    }
  }

  lemma {:induction false} CoKeywordEdgeIn(faculty: string, cs: seq<string>, j: nat)
    requires j < |cs|
    ensures Edge(faculty, cs[j]) in CoKeywordEdges(faculty, cs)
  {
    if j < |cs| - 1 {
      CoKeywordEdgeIn(faculty, cs[..|cs| - 1], j);
    }
  }

  /** The loop only appends to the edge list. */
  lemma {:induction false} RunEdgesGrow(keyword: string, entries: seq<Entry>, i: nat)
    requires i <= |entries|
    ensures Run(keyword, entries[..i]).edges <= Run(keyword, entries).edges
  {
    if i < |entries| {
      var n := |entries| - 1;
      assert entries[..n][..i] == entries[..i];
      RunEdgesGrow(keyword, entries[..n], i);
      RowEdges(keyword, entries, n);
      assert entries[..n + 1] == entries;
    } else {
      assert entries[..i] == entries;
    }
  }

  /** Each (faculty, co-keyword) pair of the input has its edge in the final list. */
  lemma PairHasEdge(keyword: string, entries: seq<Entry>, i: nat, j: nat)
    requires i < |entries| && j < |entries[i].coKeywords|
    ensures Edge(entries[i].faculty, entries[i].coKeywords[j]) in Run(keyword, entries).edges
  {
    var edge := Edge(entries[i].faculty, entries[i].coKeywords[j]);
    var row := Run(keyword, entries[..i + 1]).edges;
    var all := Run(keyword, entries).edges;
    RowEdges(keyword, entries, i);
    CoKeywordEdgeIn(entries[i].faculty, entries[i].coKeywords, j);
    assert edge in row;
    RunEdgesGrow(keyword, entries, i + 1);
    var k :| 0 <= k < |row| && row[k] == edge;
    assert all[k] == edge;
  }

  // ---------------------------------------------------------------------------------------
  // When a faculty-to-keyword edge is emitted.

  /** Every name of every row is among the names of any longer list of rows. */
  lemma {:induction false} NamesContain(entries: seq<Entry>, i: nat)
    requires i < |entries|
    ensures entries[i].faculty in Names(entries)
    ensures forall c :: c in entries[i].coKeywords ==> c in Names(entries)
  {
    var n := |entries| - 1;
    if i < n {
      NamesContain(entries[..n], i);
    } else {
      forall c | c in entries[i].coKeywords ensures c in Names(entries) {
        ElementsMembers(entries[i].coKeywords, c);
      }
    }
  }

  /**
   * However many rows name a faculty member, only the first runs the faculty step: a later row
   * naming it emits no second faculty-to-keyword edge from that step. (A co-keyword equal to the
   * selected keyword still adds the same edge value through the inner loop.)
   */
  lemma FacultyEdgeAtMostOnce(entries: seq<Entry>, i: nat, j: nat)
    requires i < j < |entries| && entries[i].faculty == entries[j].faculty
    ensures !NewFaculty(entries, j)
  {
    NamesContain(entries[..j], i);
  }

  /** A faculty name already met as a co-keyword of an earlier row does not run the faculty step. */
  lemma NoFacultyEdgeAfterCoKeyword(entries: seq<Entry>, m: nat, i: nat)
    requires m < i < |entries| && entries[i].faculty in entries[m].coKeywords
    ensures !NewFaculty(entries, i)
  {
    NamesContain(entries[..i], m);
  }

  /**
   * The quirk of app.py:177-179: the selected keyword is never marked as seen, so when it also
   * occurs as a faculty name or co-keyword the node list holds a second node with its id.
   */
  lemma RootIdRepeated(keyword: string, entries: seq<Entry>)
    requires keyword in Names(entries)
    ensures var nodes := Run(keyword, entries).nodes;
      exists p :: 1 <= p < |nodes| && nodes[p].id == keyword
  {
    RunWellFormed(keyword, entries);
    RunSeen(keyword, entries);
    var nodes := Run(keyword, entries).nodes;
    IdsMembers(nodes[1..], keyword);
    var k :| 0 <= k < |nodes[1..]| && nodes[1..][k].id == keyword;
    assert nodes[k + 1] == nodes[1..][k];
  }
}
