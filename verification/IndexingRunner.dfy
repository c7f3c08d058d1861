/** `IndexingRunner` on one document of a high-quality dataset, with nobody else at
    the rows: what each method leaves behind, whatever fails on the way. */
module IndexingRunner {
  import opened IndexingRows
  import opened Wrappers

  /** Why a method stops: DocumentIsPausedError, or another exception. */
  datatype Stop = Paused | Error

  // ---------- what loading does to the rows ----------

  /** The rows after the chunks of the first k groups, of which some fail. */
  function LoadRows(hash: string -> nat, rows: seq<Segment>, nodes: seq<Node>, fails: nat -> bool, k: nat): (r: seq<Segment>)
    ensures |r| == |rows|
  {
    if k == 0 then rows
    else
      var before, group := LoadRows(hash, rows, nodes, fails, k - 1), Group(hash, nodes, k - 1);
      if group == [] || fails(k - 1) then before else FinishChunk(before, NodeIds(group))
  }

  /** A group that has nodes and whose chunk does not fail. */
  predicate Survives(hash: string -> nat, nodes: seq<Node>, fails: nat -> bool, g: nat) {
    Group(hash, nodes, g) != [] && !fails(g)
  }

  ghost predicate InSurvivor(hash: string -> nat, nodes: seq<Node>, fails: nat -> bool, k: nat, id: string) {
    exists g :: 0 <= g < k && Survives(hash, nodes, fails, g) && id in NodeIds(Group(hash, nodes, g))
  }

  /** Exactly the indexing segments of the surviving groups are completed and enabled;
      every other row is as it was. */
  lemma {:induction false} LoadRowsExactly(hash: string -> nat, rows: seq<Segment>, nodes: seq<Node>,
                                          fails: nat -> bool, k: nat, i: nat)
    requires i < |rows|
    ensures LoadRows(hash, rows, nodes, fails, k)[i]
         == if rows[i].status == Indexing && InSurvivor(hash, nodes, fails, k, rows[i].nodeId)
            then rows[i].(status := Completed, enabled := true) else rows[i]
  {
    hide Group, NodeIds;
    if k > 0 {
      LoadRowsExactly(hash, rows, nodes, fails, k - 1, i);
      var id := rows[i].nodeId;
      if InSurvivor(hash, nodes, fails, k - 1, id) {
        var g :| 0 <= g < k - 1 && Survives(hash, nodes, fails, g) && id in NodeIds(Group(hash, nodes, g));
        assert InSurvivor(hash, nodes, fails, k, id);
      }
    }
  }

  ghost predicate NothingFails(hash: string -> nat, nodes: seq<Node>, fails: nat -> bool) {
    forall g :: 0 <= g < GROUPS && fails(g) ==> Group(hash, nodes, g) == []
  }

  /** Every node is in a group, so when nothing fails every node's segment is reached. */
  lemma AllSurvive(hash: string -> nat, nodes: seq<Node>, fails: nat -> bool, id: string)
    requires NothingFails(hash, nodes, fails)
    ensures InSurvivor(hash, nodes, fails, GROUPS, id) <==> id in NodeIds(nodes)
  {
    if id in NodeIds(nodes) {
      var node :| node in nodes && node.id == id;
      var g := GroupOf(hash, node);
      GroupMembers(hash, nodes, g);
      assert node in Group(hash, nodes, g);
      assert Survives(hash, nodes, fails, g);
    }
    if InSurvivor(hash, nodes, fails, GROUPS, id) {
      var g :| 0 <= g < GROUPS && Survives(hash, nodes, fails, g) && id in NodeIds(Group(hash, nodes, g));
      GroupMembers(hash, nodes, g);
    }
  }

  /** A resume that nothing disturbs completes every segment if and only if none of
      them was still waiting when it began. */
  lemma ResumeCompletesExactly(hash: string -> nat, rows: seq<Segment>, fails: nat -> bool)
    requires NothingFails(hash, Remaining(rows), fails)
    ensures AllCompleted(LoadRows(hash, rows, Remaining(rows), fails, GROUPS)) <==> NoneWaiting(rows)
  {
    var nodes := Remaining(rows);
    var rows' := LoadRows(hash, rows, nodes, fails, GROUPS);
    RemainingMembers(rows);
    forall i | 0 <= i < |rows| ensures rows'[i].status == Completed <==> rows[i].status != Waiting {
      LoadRowsExactly(hash, rows, nodes, fails, GROUPS, i);
      AllSurvive(hash, nodes, fails, rows[i].nodeId);
      if rows[i].status == Indexing {
        assert Node(rows[i].nodeId, rows[i].content) in nodes;
      }
    }
    if AllCompleted(rows') {
      forall i | 0 <= i < |rows| ensures rows[i].status != Waiting {
        assert rows'[i].status == Completed;
      }
    }
  }

  lemma {:induction false} AddNodesCovers(rows: seq<Segment>, nodes: seq<Node>)
    ensures |AddNodes(rows, nodes)| >= |rows|
    ensures forall i :: 0 <= i < |AddNodes(rows, nodes)| ==>
              if i < |rows| then AddNodes(rows, nodes)[i].nodeId == rows[i].nodeId
              else AddNodes(rows, nodes)[i].nodeId in NodeIds(nodes)
  {
    if nodes != [] {
      AddNodesCovers(rows, nodes[..|nodes| - 1]);
      assert nodes == nodes[..|nodes| - 1] + [nodes[|nodes| - 1]];
      assert NodeIds(nodes) == NodeIds(nodes[..|nodes| - 1]) + {nodes[|nodes| - 1].id};
    }
  }

  ghost predicate AllAmong(rows: seq<Segment>, ids: set<string>) {
    forall i :: 0 <= i < |rows| ==> rows[i].nodeId in ids
  }

  /** Building marks every row of the document as indexing, old ones too, but loads
      the new nodes only: it completes the document if and only if every row that was
      there before stands for one of them, which is so when there was none. */
  lemma BuildCompletesExactly(hash: string -> nat, rows: seq<Segment>, nodes: seq<Node>, fails: nat -> bool)
    requires NothingFails(hash, nodes, fails)
    ensures AllCompleted(LoadRows(hash, MarkAll(AddNodes(rows, nodes)), nodes, fails, GROUPS))
       <==> AllAmong(rows, NodeIds(nodes))
  {
    var marked := MarkAll(AddNodes(rows, nodes));
    var rows' := LoadRows(hash, marked, nodes, fails, GROUPS);
    AddNodesCovers(rows, nodes);
    forall i | 0 <= i < |marked| ensures rows'[i].status == Completed <==> marked[i].nodeId in NodeIds(nodes) {
      LoadRowsExactly(hash, marked, nodes, fails, GROUPS, i);
      AllSurvive(hash, nodes, fails, marked[i].nodeId);
    }
    if AllCompleted(rows') {
      forall i | 0 <= i < |rows| ensures rows[i].nodeId in NodeIds(nodes) {
        assert rows'[i].status == Completed;
        assert marked[i].nodeId == rows[i].nodeId;
      }
    }
  }

  // ---------- the runner ----------

  /** How the chunk of group g ends; an empty group has none. */
  function ChunkResult(hash: string -> nat, tokens: string -> nat, flag: bool,
                       nodes: seq<Node>, fails: nat -> bool, g: nat): Result<nat, Stop> {
    var group := Group(hash, nodes, g);
    if group == [] then Ok(0)
    else if flag then Err(Paused)
    else if fails(g) then Err(Error)
    else Ok(TokenSum(tokens, group))
  }

  /** What the results of the chunks say about the whole. */
  lemma ChunkResults(hash: string -> nat, tokens: string -> nat, flag: bool, nodes: seq<Node>, fails: nat -> bool)
    ensures (forall g :: 0 <= g < GROUPS ==> ChunkResult(hash, tokens, flag, nodes, fails, g).Ok?)
       <==> nodes == [] || (!flag && NothingFails(hash, nodes, fails))
    ensures forall g :: 0 <= g < GROUPS && ChunkResult(hash, tokens, flag, nodes, fails, g) == Err(Paused) ==>
              flag && nodes != []
    ensures forall g :: 0 <= g < GROUPS && ChunkResult(hash, tokens, flag, nodes, fails, g) == Err(Error) ==>
              !flag && nodes != [] && !NothingFails(hash, nodes, fails)
  {
    SomeGroup(hash, nodes);
    if forall g :: 0 <= g < GROUPS ==> ChunkResult(hash, tokens, flag, nodes, fails, g).Ok? {
      forall g | 0 <= g < GROUPS && (flag || fails(g)) ensures Group(hash, nodes, g) == [] {
        assert ChunkResult(hash, tokens, flag, nodes, fails, g).Ok?;
      }
      if flag {
        assert forall g :: 0 <= g < GROUPS ==> Group(hash, nodes, g) == [];
      } else {
        assert NothingFails(hash, nodes, fails);
      }
    }
  }

  lemma ChunkTokens(hash: string -> nat, tokens: string -> nat, flag: bool, nodes: seq<Node>, fails: nat -> bool, g: nat)
    requires ChunkResult(hash, tokens, flag, nodes, fails, g).Ok?
    ensures ChunkResult(hash, tokens, flag, nodes, fails, g).value == TokenSum(tokens, Group(hash, nodes, g))
  {
  }

  /** The rows a build leaves: untouched when it stops before saving any segment, all
      marked when the flag stops every chunk, otherwise loaded. */
  function BuiltRows(hash: string -> nat, rows: seq<Segment>, stopped: bool, flag: bool, nodes: Option<seq<Node>>,
                     fails: nat -> bool): seq<Segment> {
    if stopped || nodes.None? then rows
    else
      var marked := MarkAll(AddNodes(rows, nodes.value));
      if flag then marked else LoadRows(hash, marked, nodes.value, fails, GROUPS)
  }

  class Runner {
    const hash: string -> nat
    const tokens: string -> nat
    var status: DocumentStatus
    var paused: bool
    var flag: bool
    var rows: seq<Segment>

    constructor (hash: string -> nat, tokens: string -> nat, status: DocumentStatus, rows: seq<Segment>)
      ensures this.hash == hash && this.tokens == tokens
      ensures this.status == status && this.rows == rows && !paused && !flag
    {
      this.hash, this.tokens := hash, tokens;
      this.status, this.rows, paused, flag := status, rows, false, false;
    }

    /** `_update_document_index_status` */
    method UpdateDocumentIndexStatus(after: DocumentStatus) returns (r: Result<(), Stop>)
      modifies `status
      ensures r == if paused then Err(Paused) else Ok(())
      ensures status == if paused then old(status) else after
    {
      if paused {
        return Err(Paused);
      }
      status := after;
      return Ok(());
    }

    /** `_process_chunk`; `fails` says whether loading the index raises. */
    method ProcessChunk(nodes: seq<Node>, fails: bool) returns (r: Result<nat, Stop>)
      modifies `rows
      ensures r == if flag then Err(Paused) else if fails then Err(Error) else Ok(TokenSum(tokens, nodes))
      ensures rows == if r.Ok? then FinishChunk(old(rows), NodeIds(nodes)) else old(rows)
      // a segment that is indexing and stands for one of the nodes is completed and enabled
      ensures |rows| == |old(rows)|
      ensures forall i :: 0 <= i < |rows| ==>
                rows[i] == if !flag && !fails && old(rows)[i].status == Indexing
                              && exists node :: node in nodes && node.id == old(rows)[i].nodeId
                           then old(rows)[i].(status := Completed, enabled := true) else old(rows)[i]
    {
      if flag {
        return Err(Paused);
      }
      var count := 0;
      for i := 0 to |nodes|
        invariant count == TokenSum(tokens, nodes[..i])
      {
        assert nodes[..i + 1][..i] == nodes[..i];
        count := count + tokens(nodes[i].content);
      }
      assert nodes[..|nodes|] == nodes;
      if fails {
        return Err(Error);
      }
      rows := FinishChunk(rows, NodeIds(nodes));
      return Ok(count);
    }

    /** The distribution of the nodes over the groups in `_load`. */
    method Distribute(nodes: seq<Node>) returns (groups: seq<seq<Node>>)
      ensures |groups| == GROUPS
      ensures forall g :: 0 <= g < GROUPS ==> groups[g] == Group(hash, nodes, g)
    {
      groups := seq(GROUPS, _ => []);
      for i := 0 to |nodes|
        invariant |groups| == GROUPS
        invariant forall g :: 0 <= g < GROUPS ==> groups[g] == Group(hash, nodes[..i], g)
      {
        assert nodes[..i + 1][..i] == nodes[..i];
        var g := GroupOf(hash, nodes[i]);
        groups := groups[g := groups[g] + [nodes[i]]];
      }
      assert nodes[..|nodes|] == nodes;
    }

    /** The chunks of `_load`, all of which run to their end. */
    method RunChunks(nodes: seq<Node>, fails: nat -> bool) returns (results: seq<Result<nat, Stop>>)
      modifies `rows
      ensures |results| == GROUPS
      ensures forall g :: 0 <= g < GROUPS ==> results[g] == ChunkResult(hash, tokens, flag, nodes, fails, g)
      ensures rows == if flag then old(rows) else LoadRows(hash, old(rows), nodes, fails, GROUPS)
    {
      hide Group, TokenSum, FinishChunk, NodeIds;
      var groups := Distribute(nodes);
      results := [];
      for g := 0 to GROUPS
        invariant |results| == g
        invariant rows == if flag then old(rows) else LoadRows(hash, old(rows), nodes, fails, g)
        invariant forall h :: 0 <= h < g ==> results[h] == ChunkResult(hash, tokens, flag, nodes, fails, h)
      {
        var result := Ok(0);
        if groups[g] != [] {
          result := ProcessChunk(groups[g], fails(g));
        }
        results := results + [result];
      }
    }

    /** `_load`: the first error of any chunk is raised once all are over; the document
        is completed only if there was none. */
    method Load(nodes: seq<Node>, fails: nat -> bool) returns (r: Result<nat, Stop>)
      modifies `status, `rows
      ensures r.Ok? <==> !paused && (nodes == [] || (!flag && NothingFails(hash, nodes, fails)))
      ensures r.Ok? ==> r.value == TokenSum(tokens, nodes)
      ensures r == Err(Error) <==> nodes != [] && !flag && !NothingFails(hash, nodes, fails)
      ensures status == if r.Ok? then Done else old(status)
      ensures rows == if flag then old(rows) else LoadRows(hash, old(rows), nodes, fails, GROUPS)
    {
      hide Group, TokenSum, LoadRows, ChunkResult, NothingFails;
      var results := RunChunks(nodes, fails);
      ChunkResults(hash, tokens, flag, nodes, fails);
      var total := 0;
      for g := 0 to GROUPS
        modifies {}
        invariant total == GroupTokens(tokens, hash, nodes, g)
        invariant forall h :: 0 <= h < g ==> ChunkResult(hash, tokens, flag, nodes, fails, h).Ok?
      {
        var result := results[g];
        assert result == ChunkResult(hash, tokens, flag, nodes, fails, g);
        match result {
          case Ok(value) =>
            ChunkTokens(hash, tokens, flag, nodes, fails, g);
            total := total + value;
          case Err(stop) =>
            assert stop.Paused? || stop.Error?;
            return Err(stop);
        }
      }
      assert nodes == [] || (!flag && NothingFails(hash, nodes, fails));
      TokensConserved(tokens, hash, nodes);
      var updated := UpdateDocumentIndexStatus(Done);
      if updated == Err(Paused) {
        return Err(Paused);
      }
      return Ok(total);
    }

    /** The documents of `run_in_indexing_status`. */
    method CollectRemaining() returns (nodes: seq<Node>)
      ensures nodes == Remaining(rows)
    {
      nodes := [];
      for i := 0 to |rows|
        invariant nodes == Remaining(rows[..i])
      {
        assert rows[..i + 1][..i] == rows[..i];
        if rows[i].status != Completed {
          nodes := nodes + [Node(rows[i].nodeId, rows[i].content)];
        }
      }
      assert rows[..|rows|] == rows;
    }

    /** `run_in_indexing_status`: true when DocumentIsPausedError is raised again. */
    method RunInIndexingStatus(fails: nat -> bool) returns (raised: bool)
      modifies `status, `rows
      ensures rows == if flag then old(rows)
                      else LoadRows(hash, old(rows), Remaining(old(rows)), fails, GROUPS)
      ensures var nodes := Remaining(old(rows));
              && (raised <==> (flag && nodes != []) || (paused && NothingFails(hash, nodes, fails)))
              && status == if raised then old(status)
                           else if NothingFails(hash, nodes, fails) then Done else Failed
      ensures status == Done && !raised && !flag ==> (AllCompleted(rows) <==> NoneWaiting(old(rows)))
    {
      var nodes := CollectRemaining();
      ghost var before := rows;
      var r := Load(nodes, fails);
      if r.Ok? && !flag {
        NothingFailsForNone(hash, nodes, fails);
        ResumeCompletesExactly(hash, before, fails);
      }
      if r.Err? {
        if r.error.Paused? {
          return true;
        }
        status := Failed;
      }
      NothingFailsForNone(hash, nodes, fails);
      return false;
    }

    /** `_load_segments` */
    method LoadSegments(nodes: seq<Node>) returns (r: Result<(), Stop>)
      modifies `status, `rows
      ensures r == if paused then Err(Paused) else Ok(())
      ensures status == if paused then old(status) else BeingIndexed
      ensures rows == if paused then AddNodes(old(rows), nodes) else MarkAll(AddNodes(old(rows), nodes))
      ensures |rows| == |AddNodes(old(rows), nodes)|
      ensures forall i :: 0 <= i < |rows| ==>
                var saved := AddNodes(old(rows), nodes)[i];
                rows[i] == if paused then saved else saved.(status := Indexing)
    {
      for i := 0 to |nodes|
        invariant rows == AddNodes(old(rows), nodes[..i]) && status == old(status)
      {
        assert nodes[..i + 1][..i] == nodes[..i];
        rows := AddNode(rows, nodes[i]);
      }
      assert nodes[..|nodes|] == nodes;
      r := UpdateDocumentIndexStatus(BeingIndexed);
      if r.Ok? {
        rows := MarkAll(rows);
      }
    }

    /** `run`: `extracted` and `nodes` are missing when extraction or transformation
        raises. Earlier segments stay where they are. */
    method Run(extracted: bool, nodes: Option<seq<Node>>, fails: nat -> bool) returns (raised: bool)
      modifies `status, `rows
      ensures raised <==> extracted && (paused || (flag && nodes.Some? && nodes.value != []))
      ensures raised ==> status == if paused then old(status) else BeingIndexed
      ensures rows == BuiltRows(hash, old(rows), !extracted || paused, flag, nodes, fails)
      ensures status == Done && !raised && extracted && nodes.Some? && !flag ==>
                (AllCompleted(rows) <==> AllAmong(old(rows), NodeIds(nodes.value)))
      ensures !raised ==>
                status == if extracted && nodes.Some? && (nodes.value == [] || NothingFails(hash, nodes.value, fails))
                          then Done else Failed
    {
      if !extracted {
        status := Failed;
        return false;
      }
      var split := UpdateDocumentIndexStatus(Splitting);
      if split == Err(Paused) {
        return true;
      }
      if nodes.None? {
        status := Failed;
        return false;
      }
      ghost var before := rows;
      var saved := LoadSegments(nodes.value);
      if saved == Err(Paused) {
        return true;
      }
      var r := Load(nodes.value, fails);
      NothingFailsForNone(hash, nodes.value, fails);
      if NothingFails(hash, nodes.value, fails) {
        BuildCompletesExactly(hash, before, nodes.value, fails);
      }
      if r.Err? {
        if r.error.Paused? {
          return true;
        }
        status := Failed;
      }
      return false;
    }

    /** `run_in_splitting_status`: deletes the segments there are and builds anew. */
    method RunInSplittingStatus(extracted: bool, nodes: Option<seq<Node>>, fails: nat -> bool) returns (raised: bool)
      modifies `status, `rows
      ensures raised <==> extracted && (paused || (flag && nodes.Some? && nodes.value != []))
      ensures raised ==> status == if paused then old(status) else BeingIndexed
      ensures rows == BuiltRows(hash, [], !extracted || paused, flag, nodes, fails)
      ensures status == Done && !raised && extracted && nodes.Some? && !flag ==> AllCompleted(rows)
      ensures !raised ==>
                status == if extracted && nodes.Some? && (nodes.value == [] || NothingFails(hash, nodes.value, fails))
                          then Done else Failed
    {
      rows := [];
      raised := Run(extracted, nodes, fails);
    }
  }

  lemma NothingFailsForNone(hash: string -> nat, nodes: seq<Node>, fails: nat -> bool)
    ensures nodes == [] ==> NothingFails(hash, nodes, fails)
  {
  }

  /** Nodes there are fall into some group. */
  lemma SomeGroup(hash: string -> nat, nodes: seq<Node>)
    ensures nodes == [] <==> forall g :: 0 <= g < GROUPS ==> Group(hash, nodes, g) == []
  {
    if nodes == [] {
      forall g | 0 <= g < GROUPS ensures Group(hash, nodes, g) == [] {
      }
    } else {
      var g := GroupOf(hash, nodes[0]);
      GroupMembers(hash, nodes, g);
      assert nodes[0] in nodes;
      assert nodes[0] in Group(hash, nodes, g);
    }
  }
}
