/** The rows the indexing runner works on, and what each of its statements does to them. */
module IndexingRows {

  datatype SegmentStatus = Waiting | Indexing | Completed

  datatype Segment = Segment(nodeId: string, content: string, status: SegmentStatus, enabled: bool)

  datatype DocumentStatus = Queued | Parsing | Cleaning | Splitting | BeingIndexed | Done | Failed

  /** A piece of the document as the index processor sees it. */
  datatype Node = Node(id: string, content: string)

  /** `max_workers` */
  const GROUPS: nat := 10

  // ---------- statements on segments ----------

  function NodeIds(nodes: seq<Node>): set<string> {
    set node | node in nodes :: node.id
  }

  /** The update at the end of `_process_chunk`. */
  function Finished(s: Segment, ids: set<string>): Segment {
    if s.nodeId in ids && s.status == Indexing then s.(status := Completed, enabled := true) else s
  }

  function FinishChunk(rows: seq<Segment>, ids: set<string>): (r: seq<Segment>)
    ensures |r| == |rows|
  {
    seq(|rows|, i requires 0 <= i < |rows| => Finished(rows[i], ids))
  }

  /** `_update_segments_by_document` at the end of `_load_segments`. */
  function MarkAll(rows: seq<Segment>): (r: seq<Segment>)
    ensures |r| == |rows|
  {
    seq(|rows|, i requires 0 <= i < |rows| => rows[i].(status := Indexing))
  }

  predicate HasRow(rows: seq<Segment>, id: string) {
    exists i :: 0 <= i < |rows| && rows[i].nodeId == id
  }

  function Overwrite(rows: seq<Segment>, node: Node): seq<Segment> {
    seq(|rows|, i requires 0 <= i < |rows| =>
      if rows[i].nodeId == node.id then rows[i].(content := node.content) else rows[i])
  }

  /** One round of `add_documents`: a node with a known id overwrites, any other is
      appended. */
  function AddNode(rows: seq<Segment>, node: Node): seq<Segment> {
    if HasRow(rows, node.id) then Overwrite(rows, node)
    else rows + [Segment(node.id, node.content, Waiting, false)]
  }

  /** `add_documents` */
  function AddNodes(rows: seq<Segment>, nodes: seq<Node>): seq<Segment> {
    if nodes == [] then rows else AddNode(AddNodes(rows, nodes[..|nodes| - 1]), nodes[|nodes| - 1])
  }

  /** The nodes a resume works on. */
  function Remaining(rows: seq<Segment>): seq<Node> {
    if rows == [] then []
    else
      var last := rows[|rows| - 1];
      Remaining(rows[..|rows| - 1]) + if last.status == Completed then [] else [Node(last.nodeId, last.content)]
  }

  ghost predicate AllCompleted(rows: seq<Segment>) {
    forall i :: 0 <= i < |rows| ==> rows[i].status == Completed
  }

  ghost predicate NoneWaiting(rows: seq<Segment>) {
    forall i :: 0 <= i < |rows| ==> rows[i].status != Waiting
  }

  // ---------- groups ----------

  /** The group of a node: its content's hash modulo the number of workers. */
  function GroupOf(hash: string -> nat, node: Node): (g: nat)
    ensures g < GROUPS
  {
    hash(node.content) % GROUPS
  }

  function Group(hash: string -> nat, nodes: seq<Node>, g: nat): seq<Node> {
    if nodes == [] then []
    else
      var last := nodes[|nodes| - 1];
      Group(hash, nodes[..|nodes| - 1], g) + if GroupOf(hash, last) == g then [last] else []
  }

  /** A node is in its own group and in no other. */
  lemma {:induction false} GroupMembers(hash: string -> nat, nodes: seq<Node>, g: nat)
    ensures forall node :: node in Group(hash, nodes, g) <==> node in nodes && GroupOf(hash, node) == g
  {
    if nodes != [] {
      GroupMembers(hash, nodes[..|nodes| - 1], g);
      assert nodes == nodes[..|nodes| - 1] + [nodes[|nodes| - 1]];
    }
  }

  lemma {:induction false} RemainingMembers(rows: seq<Segment>)
    ensures forall node :: node in Remaining(rows)
              <==> exists i :: 0 <= i < |rows| && rows[i].status != Completed && node == Node(rows[i].nodeId, rows[i].content)
  {
    if rows != [] {
      var front := rows[..|rows| - 1];
      RemainingMembers(front);
      forall node
        ensures node in Remaining(rows)
           <==> exists i :: 0 <= i < |rows| && rows[i].status != Completed && node == Node(rows[i].nodeId, rows[i].content)
      {
        if node in Remaining(front) {
          var i :| 0 <= i < |front| && front[i].status != Completed && node == Node(front[i].nodeId, front[i].content);
          assert rows[i] == front[i];
        }
        if exists i :: 0 <= i < |rows| && rows[i].status != Completed && node == Node(rows[i].nodeId, rows[i].content) {
          var i :| 0 <= i < |rows| && rows[i].status != Completed && node == Node(rows[i].nodeId, rows[i].content);
          if i < |front| {
            assert front[i] == rows[i];
          }
        }
      }
    }
  }

  ghost predicate FreshRows(rows: seq<Segment>, ids: set<string>) {
    forall i :: 0 <= i < |rows| ==> rows[i].status == Waiting && rows[i].nodeId in ids
  }

  lemma AddedRow(rows: seq<Segment>, node: Node, ids: set<string>)
    requires FreshRows(rows, ids) && node.id in ids
    ensures FreshRows(AddNode(rows, node), ids)
  {
  }

  lemma {:induction false} AddedRows(nodes: seq<Node>)
    ensures FreshRows(AddNodes([], nodes), NodeIds(nodes))
  {
    if nodes != [] {
      var front, last := nodes[..|nodes| - 1], nodes[|nodes| - 1];
      AddedRows(front);
      assert nodes == front + [last];
      assert NodeIds(nodes) == NodeIds(front) + {last.id};
    }
  }

  // ---------- tokens ----------

  function TokenSum(tokens: string -> nat, nodes: seq<Node>): nat {
    if nodes == [] then 0
    else TokenSum(tokens, nodes[..|nodes| - 1]) + tokens(nodes[|nodes| - 1].content)
  }

  /** The tokens of the first k groups. */
  function GroupTokens(tokens: string -> nat, hash: string -> nat, nodes: seq<Node>, k: nat): nat {
    if k == 0 then 0
    else GroupTokens(tokens, hash, nodes, k - 1) + TokenSum(tokens, Group(hash, nodes, k - 1))
  }

  function LastTokens(tokens: string -> nat, hash: string -> nat, nodes: seq<Node>, k: nat): nat
    requires nodes != []
  {
    if GroupOf(hash, nodes[|nodes| - 1]) < k then tokens(nodes[|nodes| - 1].content) else 0
  }

  lemma {:induction false} GroupTokensOfLast(tokens: string -> nat, hash: string -> nat, nodes: seq<Node>, k: nat)
    requires nodes != []
    ensures GroupTokens(tokens, hash, nodes, k)
         == GroupTokens(tokens, hash, nodes[..|nodes| - 1], k)
            + LastTokens(tokens, hash, nodes, k)
  {
    hide Group, TokenSum, GroupOf;
    if k > 0 {
      GroupTokensOfLast(tokens, hash, nodes, k - 1);
      TokensOfLast(tokens, hash, nodes, k - 1);
    }
  }

  lemma TokensOfLast(tokens: string -> nat, hash: string -> nat, nodes: seq<Node>, g: nat)
    requires nodes != []
    ensures TokenSum(tokens, Group(hash, nodes, g))
         == TokenSum(tokens, Group(hash, nodes[..|nodes| - 1], g))
            + if GroupOf(hash, nodes[|nodes| - 1]) == g then tokens(nodes[|nodes| - 1].content) else 0
  {
    var group, front := Group(hash, nodes, g), Group(hash, nodes[..|nodes| - 1], g);
    if GroupOf(hash, nodes[|nodes| - 1]) == g {
      assert group[..|group| - 1] == front;
    } else {
      assert group == front;
    }
  }

  lemma {:induction false} GroupTokensOfNone(tokens: string -> nat, hash: string -> nat, k: nat)
    ensures GroupTokens(tokens, hash, [], k) == 0
  {
    if k > 0 {
      GroupTokensOfNone(tokens, hash, k - 1);
    }
  }

  /** Distributing nodes over the groups neither loses nor doubles a token. */
  lemma {:induction false} TokensConserved(tokens: string -> nat, hash: string -> nat, nodes: seq<Node>)
    ensures GroupTokens(tokens, hash, nodes, GROUPS) == TokenSum(tokens, nodes)
  {
    if nodes == [] {
      GroupTokensOfNone(tokens, hash, GROUPS);
    } else {
      GroupTokensOfLast(tokens, hash, nodes, GROUPS);
      TokensConserved(tokens, hash, nodes[..|nodes| - 1]);
    }
  }

  /** The tokens of a list are those of its contents, one by one. */
  lemma {:induction false} TokenSumMeans(tokens: string -> nat, node: Node, a: seq<Node>, b: seq<Node>)
    ensures TokenSum(tokens, []) == 0 && TokenSum(tokens, [node]) == tokens(node.content)
    ensures TokenSum(tokens, a + b) == TokenSum(tokens, a) + TokenSum(tokens, b)
    decreases |b|
  {
    assert [node][..0] == [];
    if b == [] {
      assert a + b == a;
    } else {
      assert (a + b)[..|a + b| - 1] == a + b[..|b| - 1];
      TokenSumMeans(tokens, node, a, b[..|b| - 1]);
    }
  }

  // ---------- the same statements, said by rows and by nodes ----------

  /** A group takes the nodes with its remainder, in the order of the list. */
  lemma {:induction false} GroupInOrder(hash: string -> nat, node: Node, a: seq<Node>, b: seq<Node>, g: nat)
    ensures Group(hash, [], g) == [] && Group(hash, [node], g) == if hash(node.content) % 10 == g then [node] else []
    ensures Group(hash, a + b, g) == Group(hash, a, g) + Group(hash, b, g)
    decreases |b|
  {
    assert [node][..0] == [];
    if b == [] {
      assert a + b == a;
    } else {
      assert (a + b)[..|a + b| - 1] == a + b[..|b| - 1];
      GroupInOrder(hash, node, a, b[..|b| - 1], g);
    }
  }

  /** A resume takes the nodes of the unfinished segments, in the order of the rows. */
  lemma {:induction false} RemainingInOrder(row: Segment, a: seq<Segment>, b: seq<Segment>)
    ensures Remaining([]) == []
    ensures Remaining([row]) == if row.status == Completed then [] else [Node(row.nodeId, row.content)]
    ensures Remaining(a + b) == Remaining(a) + Remaining(b)
    decreases |b|
  {
    assert [row][..0] == [];
    if b == [] {
      assert a + b == a;
    } else {
      assert (a + b)[..|a + b| - 1] == a + b[..|b| - 1];
      RemainingInOrder(row, a, b[..|b| - 1]);
    }
  }

  /** Saving a node whose id is known changes the content of its rows and nothing else; any
      other node gets a waiting, disabled row at the end. */
  lemma AddNodeMeans(rows: seq<Segment>, node: Node)
    ensures var rows' := AddNode(rows, node);
            if exists i :: 0 <= i < |rows| && rows[i].nodeId == node.id then
              && |rows'| == |rows|
              && forall i :: 0 <= i < |rows| ==>
                   rows'[i] == if rows[i].nodeId == node.id then rows[i].(content := node.content) else rows[i]
            else
              rows' == rows + [Segment(node.id, node.content, Waiting, false)]
    ensures AddNodes(rows, []) == rows
  {
  }

  /** Nodes are saved one after the other, in order. */
  lemma AddNodesMeans(rows: seq<Segment>, nodes: seq<Node>, node: Node)
    ensures AddNodes(rows, nodes + [node]) == AddNode(AddNodes(rows, nodes), node)
  {
    assert (nodes + [node])[..|nodes|] == nodes;
  }
}
