/** One document of a high-quality dataset under any number of indexing workers, a
    user who pauses and recovers it, and crashes: one step for every check and for
    every commit. A run is the sequence of steps taken. */
module IndexingSteps {
  import opened IndexingRows

  /** The database and the Redis pause flag; `pause_document` sets the column first
      and the flag second, `recover_document` clears them in the same order. */
  datatype Db = Db(status: DocumentStatus, paused: bool, flag: bool, rows: seq<Segment>)

  /** A chunk task of `_load`: it checks the flag, then loads the index and commits. */
  datatype Chunk = Todo | Passed | Committed | PausedError | OtherError

  /** Where one worker is. A status update is a check of the pause column followed by
      a commit; the phases named Checked lie between the two. */
  datatype Worker =
    | Extracting
    | ExtractingChecked
    | Transforming
    | Saving(nodes: seq<Node>, saved: nat)
    | SavedChecked(nodes: seq<Node>)
    | Marked(nodes: seq<Node>)
    | Loading(nodes: seq<Node>, chunks: map<nat, Chunk>)
    | LoadedChecked(nodes: seq<Node>, chunks: map<nat, Chunk>)

  type WorkerId = nat

  datatype State = State(db: Db, workers: map<WorkerId, Worker>)

  datatype Label =
    | StartRun(w: WorkerId)
    | StartSplitting(w: WorkerId)
    | StartIndexing(w: WorkerId)
    | Check(w: WorkerId)
    | CommitStatus(w: WorkerId)
    | Transform(w: WorkerId, nodes: seq<Node>)
    | AddDocument(w: WorkerId)
    | CommitSegments(w: WorkerId)
    | CheckChunk(w: WorkerId, g: nat)
    | FailChunk(w: WorkerId, g: nat)
    | CommitChunk(w: WorkerId, g: nat)
    | GiveUp(w: WorkerId)
    | Fail(w: WorkerId)
    | Crash(w: WorkerId)
    | PauseColumn | PauseFlag | RecoverColumn | RecoverFlag
    | Retry

  /** The parts of the configuration that never change. */
  datatype Config = Config(hash: string -> nat)

  /** A worker that has yet to bring the document to indexing. */
  predicate Preparing(w: Worker) {
    !w.Marked? && !w.Loading? && !w.LoadedChecked?
  }

  predicate Checked(w: Worker) {
    w.ExtractingChecked? || w.SavedChecked? || w.LoadedChecked?
  }

  predicate Early(status: DocumentStatus) {
    status == Queued || status == Parsing || status == Cleaning
  }

  function Chunks(c: Config, nodes: seq<Node>): map<nat, Chunk> {
    map g | 0 <= g < GROUPS && Group(c.hash, nodes, g) != [] :: Todo
  }

  predicate ChunkIs(s: State, w: WorkerId, g: nat, chunk: Chunk) {
    w in s.workers && s.workers[w].Loading? && g in s.workers[w].chunks && s.workers[w].chunks[g] == chunk
  }

  predicate Over(chunk: Chunk) {
    chunk.Committed? || chunk.PausedError? || chunk.OtherError?
  }

  /** The error `_load` raises is that of the first failed chunk. */
  predicate FirstError(chunks: map<nat, Chunk>, g: nat) {
    && g in chunks && !chunks[g].Committed?
    && forall h :: h in chunks && h < g ==> chunks[h].Committed?
  }

  predicate AllOver(chunks: map<nat, Chunk>) {
    forall g :: g in chunks ==> Over(chunks[g])
  }

  predicate AllCommitted(chunks: map<nat, Chunk>) {
    forall g :: g in chunks ==> chunks[g].Committed?
  }

  /** When a step can be taken; the task that recovers a document chooses the entry
      point by its status. */
  predicate Enabled(s: State, l: Label) {
    match l
    case StartRun(w) => w !in s.workers && Early(s.db.status)
    case StartSplitting(w) => w !in s.workers && s.db.status == Splitting
    case StartIndexing(w) => w !in s.workers && s.db.status == BeingIndexed
    case Check(w) =>
      && w in s.workers
      && (var me := s.workers[w];
          || me.Extracting?
          || (me.Saving? && me.saved == |me.nodes|)
          || (me.Loading? && AllCommitted(me.chunks)))
    case CommitStatus(w) => w in s.workers && Checked(s.workers[w])
    case Transform(w, nodes) => w in s.workers && s.workers[w].Transforming?
    case AddDocument(w) => w in s.workers && s.workers[w].Saving? && s.workers[w].saved < |s.workers[w].nodes|
    case CommitSegments(w) => w in s.workers && s.workers[w].Marked?
    case CheckChunk(w, g) => ChunkIs(s, w, g, Todo)
    case FailChunk(w, g) => ChunkIs(s, w, g, Passed)
    case CommitChunk(w, g) => ChunkIs(s, w, g, Passed)
    case GiveUp(w) =>
      && w in s.workers && s.workers[w].Loading?
      && AllOver(s.workers[w].chunks) && !AllCommitted(s.workers[w].chunks)
    case Fail(w) => w in s.workers
    case Crash(w) => w in s.workers
    case PauseColumn =>
      Early(s.db.status) || s.db.status == Splitting || s.db.status == BeingIndexed
    case PauseFlag => true
    case RecoverColumn => s.db.paused
    case RecoverFlag => true
    case Retry => s.db.status == Failed
  }

  /** The hypotheses of the safety theorem: a document is built from scratch only when no
      worker is alive, and a resume finds no waiting segment. */
  ghost predicate Orderly(s: State, l: Label) {
    match l
    case StartRun(w) => s.workers == map[]
    case StartSplitting(w) => s.workers == map[]
    case StartIndexing(w) => NoneWaiting(s.db.rows)
    case _ => true
  }

  function Without(workers: map<WorkerId, Worker>, w: WorkerId): map<WorkerId, Worker> {
    map v | v in workers && v != w :: workers[v]
  }

  function Become(s: State, w: WorkerId, me: Worker): State {
    s.(workers := s.workers[w := me])
  }

  function SetChunk(s: State, w: WorkerId, g: nat, chunk: Chunk): State
    requires w in s.workers && s.workers[w].Loading?
  {
    Become(s, w, Loading(s.workers[w].nodes, s.workers[w].chunks[g := chunk]))
  }

  function ChunkIds(c: Config, nodes: seq<Node>, g: nat): set<string> {
    NodeIds(Group(c.hash, nodes, g))
  }

  ghost function Do(c: Config, s: State, l: Label): State
    requires Enabled(s, l)
  {
    match l
    case StartRun(w) => Become(s, w, Extracting)
    case StartSplitting(w) => Become(s.(db := s.db.(rows := [])), w, Extracting)
    case StartIndexing(w) =>
      Become(s, w, Loading(Remaining(s.db.rows), Chunks(c, Remaining(s.db.rows))))
    case Check(w) =>
      // a paused document raises, and the raise leaves everything as it is
      if s.db.paused then s.(workers := Without(s.workers, w))
      else
        var me := s.workers[w];
        Become(s, w, if me.Extracting? then ExtractingChecked
                     else if me.Saving? then SavedChecked(me.nodes)
                     else LoadedChecked(me.nodes, me.chunks))
    case CommitStatus(w) =>
      var me := s.workers[w];
      if me.ExtractingChecked? then Become(s.(db := s.db.(status := Splitting)), w, Transforming)
      else if me.SavedChecked? then Become(s.(db := s.db.(status := BeingIndexed)), w, Marked(me.nodes))
      else State(s.db.(status := Done), Without(s.workers, w))
    case Transform(w, nodes) => Become(s, w, Saving(nodes, 0))
    case AddDocument(w) =>
      var me := s.workers[w];
      Become(s.(db := s.db.(rows := AddNode(s.db.rows, me.nodes[me.saved]))), w, Saving(me.nodes, me.saved + 1))
    case CommitSegments(w) =>
      var nodes := s.workers[w].nodes;
      Become(s.(db := s.db.(rows := MarkAll(s.db.rows))), w, Loading(nodes, Chunks(c, nodes)))
    case CheckChunk(w, g) => SetChunk(s, w, g, if s.db.flag then PausedError else Passed)
    case FailChunk(w, g) => SetChunk(s, w, g, OtherError)
    case CommitChunk(w, g) =>
      SetChunk(s.(db := s.db.(rows := FinishChunk(s.db.rows, ChunkIds(c, s.workers[w].nodes, g)))), w, g, Committed)
    case GiveUp(w) =>
      var chunks := s.workers[w].chunks;
      if exists g :: FirstError(chunks, g) && chunks[g].PausedError? then s.(workers := Without(s.workers, w))
      else State(s.db.(status := Failed), Without(s.workers, w))
    case Fail(w) => State(s.db.(status := Failed), Without(s.workers, w))
    case Crash(w) => s.(workers := Without(s.workers, w))
    case PauseColumn => s.(db := s.db.(paused := true))
    case PauseFlag => s.(db := s.db.(flag := true))
    case RecoverColumn => s.(db := s.db.(paused := false))
    case RecoverFlag => s.(db := s.db.(flag := false))
    case Retry => s.(db := s.db.(status := Parsing, rows := []))
  }

  // ---------- runs ----------

  ghost predicate Runs(c: Config, s: State, run: seq<Label>)
    decreases |run|, 0
  {
    run == [] || (Runs(c, s, run[..|run| - 1]) && Enabled(After(c, s, run[..|run| - 1]), run[|run| - 1]))
  }

  ghost function After(c: Config, s: State, run: seq<Label>): State
    requires Runs(c, s, run)
    decreases |run|, 1
  {
    if run == [] then s else Do(c, After(c, s, run[..|run| - 1]), run[|run| - 1])
  }

  ghost predicate OrderlyRun(c: Config, s: State, run: seq<Label>)
    requires Runs(c, s, run)
  {
    run == [] ||
    (OrderlyRun(c, s, run[..|run| - 1]) && Orderly(After(c, s, run[..|run| - 1]), run[|run| - 1]))
  }

  /** A document nobody has worked on yet. */
  predicate Initial(s: State) {
    s.workers == map[] && Early(s.db.status) && s.db.rows == []
  }

  // ---------- safety ----------

  /** A chunk that has not committed, for one of whose nodes the segment stands. */
  ghost predicate Pending(c: Config, nodes: seq<Node>, chunks: map<nat, Chunk>, id: string) {
    exists g :: g in chunks && !chunks[g].Committed? && id in ChunkIds(c, nodes, g)
  }

  /** The worker still has a chunk for every unfinished segment. */
  ghost predicate Covers(c: Config, rows: seq<Segment>, nodes: seq<Node>, chunks: map<nat, Chunk>) {
    forall i :: 0 <= i < |rows| ==>
      rows[i].status == Completed || (rows[i].status == Indexing && Pending(c, nodes, chunks, rows[i].nodeId))
  }

  ghost predicate WorkerInv(c: Config, db: Db, me: Worker) {
    match me
    case Extracting => db.rows == [] && (Early(db.status) || db.status == Splitting)
    case ExtractingChecked => db.rows == [] && (Early(db.status) || db.status == Splitting)
    case Transforming => db.rows == [] && db.status == Splitting
    case Saving(nodes, saved) => FreshRows(db.rows, NodeIds(nodes)) && db.status == Splitting
    case SavedChecked(nodes) => FreshRows(db.rows, NodeIds(nodes)) && db.status == Splitting
    case Marked(nodes) => FreshRows(db.rows, NodeIds(nodes)) && (db.status == BeingIndexed || db.rows == [])
    case Loading(nodes, chunks) => Covers(c, db.rows, nodes, chunks)
    case LoadedChecked(nodes, chunks) => Covers(c, db.rows, nodes, chunks) && AllCommitted(chunks)
  }

  ghost predicate Inv(c: Config, s: State) {
    && (Early(s.db.status) ==> s.db.rows == [])
    && (s.db.status == Done ==> AllCompleted(s.db.rows))
    && (forall w :: w in s.workers ==> WorkerInv(c, s.db, s.workers[w]))
    && PreparesAlone(s)
  }

  /** A worker that prepares is the only one; beside one that is about to mark the
      segments there may be others only when there are no segments. */
  ghost predicate PreparesAlone(s: State) {
    forall w, v :: w in s.workers && v in s.workers && v != w ==>
      !Preparing(s.workers[w]) && (s.workers[w].Marked? ==> s.db.rows == [])
  }

  lemma ChunkOfNode(c: Config, nodes: seq<Node>, id: string)
    requires id in NodeIds(nodes)
    ensures Pending(c, nodes, Chunks(c, nodes), id)
  {
    var node :| node in nodes && node.id == id;
    var g := GroupOf(c.hash, node);
    GroupMembers(c.hash, nodes, g);
    assert node in Group(c.hash, nodes, g);
    assert g in Chunks(c, nodes);
  }

  lemma MarkedCovers(c: Config, rows: seq<Segment>, nodes: seq<Node>)
    requires FreshRows(rows, NodeIds(nodes))
    ensures Covers(c, MarkAll(rows), nodes, Chunks(c, nodes))
  {
    forall i | 0 <= i < |rows| ensures Pending(c, nodes, Chunks(c, nodes), MarkAll(rows)[i].nodeId) {
      ChunkOfNode(c, nodes, rows[i].nodeId);
    }
  }

  lemma RemainingCovers(c: Config, rows: seq<Segment>)
    requires NoneWaiting(rows)
    ensures Covers(c, rows, Remaining(rows), Chunks(c, Remaining(rows)))
  {
    RemainingMembers(rows);
    forall i | 0 <= i < |rows| && rows[i].status != Completed
      ensures Pending(c, Remaining(rows), Chunks(c, Remaining(rows)), rows[i].nodeId)
    {
      assert Node(rows[i].nodeId, rows[i].content) in Remaining(rows);
      ChunkOfNode(c, Remaining(rows), rows[i].nodeId);
    }
  }

  /** A commit finishes segments only: whoever covered the rows still does. */
  lemma FinishKeepsCover(c: Config, rows: seq<Segment>, ids: set<string>, nodes: seq<Node>, chunks: map<nat, Chunk>)
    requires Covers(c, rows, nodes, chunks)
    ensures Covers(c, FinishChunk(rows, ids), nodes, chunks)
  {
  }

  /** The worker whose chunk it was covers the rest without that chunk. */
  lemma CommitKeepsCover(c: Config, rows: seq<Segment>, nodes: seq<Node>, chunks: map<nat, Chunk>, g: nat)
    requires Covers(c, rows, nodes, chunks) && g in chunks
    ensures Covers(c, FinishChunk(rows, ChunkIds(c, nodes, g)), nodes, chunks[g := Committed])
  {
  }

  lemma OtherChunkKeepsCover(c: Config, rows: seq<Segment>, nodes: seq<Node>, chunks: map<nat, Chunk>, g: nat, chunk: Chunk)
    requires Covers(c, rows, nodes, chunks) && g in chunks && !chunk.Committed?
    ensures Covers(c, rows, nodes, chunks[g := chunk])
  {
  }

  /** Covering with nothing left to commit means everything is completed. */
  lemma CoveredByNothing(c: Config, rows: seq<Segment>, nodes: seq<Node>, chunks: map<nat, Chunk>)
    requires Covers(c, rows, nodes, chunks) && AllCommitted(chunks)
    ensures AllCompleted(rows)
  {
  }

  lemma FinishKeepsCompleted(rows: seq<Segment>, ids: set<string>)
    requires AllCompleted(rows)
    ensures AllCompleted(FinishChunk(rows, ids))
  {
  }

  lemma NoRowsAreFresh(ids: set<string>)
    ensures FreshRows([], ids)
  {
  }

  lemma NoRowsToDo(c: Config, ids: set<string>, nodes: seq<Node>, chunks: map<nat, Chunk>)
    ensures FinishChunk([], ids) == [] && MarkAll([]) == [] && Covers(c, [], nodes, chunks)
  {
  }

  lemma StartKeepsAlone(c: Config, s: State, l: Label)
    requires Inv(c, s) && Enabled(s, l) && Orderly(s, l) && (l.StartRun? || l.StartSplitting? || l.StartIndexing?)
    ensures PreparesAlone(Do(c, s, l))
  {
    hide Covers, Chunks, Remaining, AllCompleted;
    if l.StartIndexing? {
      forall v | v in s.workers ensures !Preparing(s.workers[v]) && (s.workers[v].Marked? ==> s.db.rows == []) {
        assert WorkerInv(c, s.db, s.workers[v]);
        if s.workers[v].Marked? {
          FreshWait(s.db.rows, NodeIds(s.workers[v].nodes));
        }
      }
    }
  }

  lemma StepKeepsAlone(c: Config, s: State, l: Label)
    requires Inv(c, s) && Enabled(s, l) && Orderly(s, l)
    ensures PreparesAlone(Do(c, s, l))
  {
    hide Covers, Chunks, ChunkIds, AddNode, MarkAll, FinishChunk, Remaining, AllCommitted, AllOver, FirstError, AllCompleted,
      FreshRows, Early;
    if l.StartRun? || l.StartSplitting? || l.StartIndexing? {
      StartKeepsAlone(c, s, l);
    }
  }

  lemma FreshWait(rows: seq<Segment>, ids: set<string>)
    requires FreshRows(rows, ids)
    ensures NoneWaiting(rows) <==> rows == []
  {
    if rows != [] {
      assert rows[0].status == Waiting;
    }
  }

  lemma ChunkStepKeepsOwn(c: Config, s: State, l: Label)
    requires Enabled(s, l) && (l.CheckChunk? || l.CommitChunk? || l.FailChunk?)
    requires WorkerInv(c, s.db, s.workers[l.w])
    ensures var s' := Do(c, s, l); WorkerInv(c, s'.db, s'.workers[l.w])
  {
    hide Covers, ChunkIds, FinishChunk;
    var db, nodes, chunks := s.db, s.workers[l.w].nodes, s.workers[l.w].chunks;
    match l {
      case CommitChunk(w, g) => CommitKeepsCover(c, db.rows, nodes, chunks, g);
      case CheckChunk(w, g) => OtherChunkKeepsCover(c, db.rows, nodes, chunks, g, if db.flag then PausedError else Passed);
      case FailChunk(w, g) => OtherChunkKeepsCover(c, db.rows, nodes, chunks, g, OtherError);
    }
  }

  lemma SaveStepKeepsOwn(c: Config, s: State, l: Label)
    requires Inv(c, s) && Enabled(s, l) && (l.Transform? || l.AddDocument? || l.CommitSegments?)
    ensures var s' := Do(c, s, l); WorkerInv(c, s'.db, s'.workers[l.w])
  {
    hide Covers, FreshRows, Chunks, AddNode, MarkAll;
    var me := s.workers[l.w];
    assert WorkerInv(c, s.db, me);
    match l {
      case Transform(_, nodes) => NoRowsAreFresh(NodeIds(nodes));
      case AddDocument(_) =>
        assert me.nodes[me.saved].id in NodeIds(me.nodes);
        AddedRow(s.db.rows, me.nodes[me.saved], NodeIds(me.nodes));
      case CommitSegments(_) => MarkedCovers(c, s.db.rows, me.nodes);
    }
  }

  /** What a step does to the worker that takes it. */
  lemma StepKeepsOwn(c: Config, s: State, l: Label)
    requires Inv(c, s) && Enabled(s, l) && Orderly(s, l)
    ensures var s' := Do(c, s, l);
            forall w :: w in s'.workers && (w !in s.workers || s'.workers[w] != s.workers[w]) ==>
              WorkerInv(c, s'.db, s'.workers[w])
  {
    hide Covers, FreshRows, Pending, Chunks, ChunkIds, AddNode, MarkAll, FinishChunk, Remaining, AllCompleted,
      AllOver, FirstError;
    match l {
      case StartIndexing(w) =>
        RemainingCovers(c, s.db.rows);
      case Transform(w, nodes) =>
        SaveStepKeepsOwn(c, s, l);
      case AddDocument(w) =>
        SaveStepKeepsOwn(c, s, l);
      case CommitSegments(w) =>
        SaveStepKeepsOwn(c, s, l);
      case CommitChunk(w, g) =>
        assert WorkerInv(c, s.db, s.workers[w]);
        ChunkStepKeepsOwn(c, s, l);
      case CheckChunk(w, g) =>
        assert WorkerInv(c, s.db, s.workers[w]);
        ChunkStepKeepsOwn(c, s, l);
      case FailChunk(w, g) =>
        assert WorkerInv(c, s.db, s.workers[w]);
        ChunkStepKeepsOwn(c, s, l);
      case CommitStatus(w) =>
        assert WorkerInv(c, s.db, s.workers[w]);
      case Check(w) =>
        assert WorkerInv(c, s.db, s.workers[w]);
      case _ =>
    }
  }

  /** What a step does to every other worker. */
  lemma StepKeepsOthers(c: Config, s: State, l: Label)
    requires Inv(c, s) && Enabled(s, l) && Orderly(s, l)
    ensures var s' := Do(c, s, l);
            forall w :: w in s'.workers && w in s.workers && s'.workers[w] == s.workers[w] ==>
              WorkerInv(c, s'.db, s'.workers[w])
  {
    hide Covers, FreshRows, Pending, Chunks, ChunkIds, AddNode, MarkAll, FinishChunk, Remaining, AllCompleted,
      AllCommitted, AllOver, FirstError;
    var s' := Do(c, s, l);
    forall v | v in s'.workers && v in s.workers && s'.workers[v] == s.workers[v]
      ensures WorkerInv(c, s'.db, s'.workers[v])
    {
      var me := s.workers[v];
      assert WorkerInv(c, s.db, me);
      if me.Marked? {
        NoRowsAreFresh(NodeIds(me.nodes));
        if l.CommitChunk? {
          NoRowsToDo(c, ChunkIds(c, s.workers[l.w].nodes, l.g), [], map[]);
        }
      } else if me.Loading? || me.LoadedChecked? {
        NoRowsToDo(c, {}, me.nodes, me.chunks);
      }
      if l.CommitChunk? && (s.workers[v].Loading? || s.workers[v].LoadedChecked?) {
        FinishKeepsCover(c, s.db.rows, ChunkIds(c, s.workers[l.w].nodes, l.g), s.workers[v].nodes, s.workers[v].chunks);
      }
    }
  }

  lemma StepKeepsDocument(c: Config, s: State, l: Label)
    requires Inv(c, s) && Enabled(s, l) && Orderly(s, l)
    ensures var db := Do(c, s, l).db;
            (Early(db.status) ==> db.rows == []) && (db.status == Done ==> AllCompleted(db.rows))
  {
    hide Covers, FreshRows, Pending, Chunks, ChunkIds, AddNode, MarkAll, Remaining, AllCompleted,
      AllCommitted, AllOver, FirstError;
    match l {
      case CommitStatus(w) =>
        var me := s.workers[w];
        assert WorkerInv(c, s.db, me);
        if me.LoadedChecked? {
          CoveredByNothing(c, s.db.rows, me.nodes, me.chunks);
        }
      case AddDocument(w) =>
        assert WorkerInv(c, s.db, s.workers[w]);
      case CommitSegments(w) =>
        assert WorkerInv(c, s.db, s.workers[w]);
      case CommitChunk(w, g) =>
        if s.db.status == Done {
          FinishKeepsCompleted(s.db.rows, ChunkIds(c, s.workers[w].nodes, g));
        }
      case _ =>
    }
  }

  lemma StepKeepsInv(c: Config, s: State, l: Label)
    requires Inv(c, s) && Enabled(s, l) && Orderly(s, l)
    ensures Inv(c, Do(c, s, l))
  {
    StepKeepsAlone(c, s, l);
    StepKeepsOwn(c, s, l);
    StepKeepsOthers(c, s, l);
    StepKeepsDocument(c, s, l);
  }

  lemma {:induction false} RunsKeepInv(c: Config, s: State, run: seq<Label>)
    requires Inv(c, s) && Runs(c, s, run) && OrderlyRun(c, s, run)
    ensures Inv(c, After(c, s, run))
  {
    if run != [] {
      RunsKeepInv(c, s, run[..|run| - 1]);
      StepKeepsInv(c, After(c, s, run[..|run| - 1]), run[|run| - 1]);
    }
  }

  /** Whatever starts, chunk failures, crashes, pauses and resumes a document goes
      through: when it is marked completed, every segment of it is. */
  lemma CompletedMeansAllCompleted(c: Config, s: State, run: seq<Label>)
    requires Initial(s) && Runs(c, s, run) && OrderlyRun(c, s, run)
    ensures After(c, s, run).db.status == Done ==> AllCompleted(After(c, s, run).db.rows)
  {
    RunsKeepInv(c, s, run);
  }

  lemma Extend(c: Config, s: State, run: seq<Label>, l: Label)
    requires Runs(c, s, run) && Enabled(After(c, s, run), l)
    ensures Runs(c, s, run + [l]) && After(c, s, run + [l]) == Do(c, After(c, s, run), l)
    ensures OrderlyRun(c, s, run) && Orderly(After(c, s, run), l) ==> OrderlyRun(c, s, run + [l])
  {
    assert (run + [l])[..|run|] == run;
  }

  /** The hypothesis on resumes is needed: a crash between the two commits of
      `_load_segments` leaves a waiting segment, and the resume that follows marks
      the document completed without ever completing it. */
  lemma CrashBetweenCommits(c: Config, node: Node) returns (s: State, run: seq<Label>)
    ensures Initial(s) && Runs(c, s, run) && After(c, s, run).db.status == Done
    ensures After(c, s, run).db.rows == [Segment(node.id, node.content, Waiting, false)]
  {
    s := State(Db(Parsing, false, false, []), map[]);
    run := [];
    Extend(c, s, run, StartRun(0));
    run := run + [StartRun(0)];
    Extend(c, s, run, Check(0));
    run := run + [Check(0)];
    Extend(c, s, run, CommitStatus(0));
    run := run + [CommitStatus(0)];
    Extend(c, s, run, Transform(0, [node]));
    run := run + [Transform(0, [node])];
    Extend(c, s, run, AddDocument(0));
    run := run + [AddDocument(0)];
    var waiting := Segment(node.id, node.content, Waiting, false);
    assert After(c, s, run).db.rows == [waiting];
    Extend(c, s, run, Check(0));
    run := run + [Check(0)];
    Extend(c, s, run, CommitStatus(0));
    run := run + [CommitStatus(0)];
    Extend(c, s, run, Crash(0));
    run := run + [Crash(0)];
    run := ResumeWaiting(c, s, run, node);
  }

  lemma ResumeWaiting(c: Config, s: State, before: seq<Label>, node: Node) returns (run: seq<Label>)
    requires Runs(c, s, before) && 1 !in After(c, s, before).workers
    requires After(c, s, before).db
          == Db(BeingIndexed, false, false, [Segment(node.id, node.content, Waiting, false)])
    ensures Runs(c, s, run) && After(c, s, run).db.status == Done
    ensures After(c, s, run).db.rows == [Segment(node.id, node.content, Waiting, false)]
  {
    var g := GroupOf(c.hash, node);
    OneWaiting(c, node, After(c, s, before).db.rows);
    hide Remaining, Chunks, ChunkIds, FinishChunk, AddNode, MarkAll, GroupOf, Runs, After, OrderlyRun;
    Extend(c, s, before, StartIndexing(1));
    run := CommitWaiting(c, s, before + [StartIndexing(1)], node, g);
    run := Conclude(c, s, run, 1);
  }

  lemma CommitWaiting(c: Config, s: State, before: seq<Label>, node: Node, g: nat) returns (run: seq<Label>)
    requires Runs(c, s, before) && 1 in After(c, s, before).workers && !After(c, s, before).db.flag
    requires After(c, s, before).workers[1] == Loading([node], map[g := Todo])
    requires forall ids :: FinishChunk(After(c, s, before).db.rows, ids) == After(c, s, before).db.rows
    ensures Runs(c, s, run) && 1 in After(c, s, run).workers
    ensures After(c, s, run).db == After(c, s, before).db
    ensures After(c, s, run).workers[1] == Loading([node], map[g := Committed])
  {
    hide ChunkIds, FinishChunk, Runs, After, OrderlyRun;
    run := before;
    Extend(c, s, run, CheckChunk(1, g));
    run := run + [CheckChunk(1, g)];
    assert After(c, s, run).workers[1] == Loading([node], map[g := Passed]);
    Extend(c, s, run, CommitChunk(1, g));
    run := run + [CommitChunk(1, g)];
  }

  /** A worker whose chunks are all committed marks the document completed. */
  lemma Conclude(c: Config, s: State, before: seq<Label>, w: WorkerId) returns (run: seq<Label>)
    requires Runs(c, s, before) && w in After(c, s, before).workers && !After(c, s, before).db.paused
    requires var me := After(c, s, before).workers[w]; me.Loading? && AllCommitted(me.chunks)
    ensures Runs(c, s, run) && (OrderlyRun(c, s, before) ==> OrderlyRun(c, s, run))
    ensures After(c, s, run).db == After(c, s, before).db.(status := Done)
  {
    hide Runs, After, OrderlyRun, AllCommitted;
    run := before;
    Extend(c, s, run, Check(w));
    run := run + [Check(w)];
    Extend(c, s, run, CommitStatus(w));
    run := run + [CommitStatus(w)];
  }

  lemma OneWaiting(c: Config, node: Node, rows: seq<Segment>)
    requires rows == [Segment(node.id, node.content, Waiting, false)]
    ensures Remaining(rows) == [node] && Chunks(c, [node]) == map[GroupOf(c.hash, node) := Todo]
    ensures forall ids :: FinishChunk(rows, ids) == rows
  {
    hide GroupOf, Group;
    assert rows[..0] == [] && Remaining([]) == [];
    forall h: nat ensures Group(c.hash, [node], h) == if h == GroupOf(c.hash, node) then [node] else [] {
      OneGroup(c, node, h);
    }
    forall ids ensures FinishChunk(rows, ids) == rows {
      assert FinishChunk(rows, ids)[0] == rows[0];
    }
  }

  lemma OneGroup(c: Config, node: Node, h: nat)
    ensures Group(c.hash, [node], h) == if h == GroupOf(c.hash, node) then [node] else []
  {
  }

  // ---------- pause ----------

  /** The status a worker that has passed the check is about to commit. */
  function Target(me: Worker): DocumentStatus
    requires Checked(me)
  {
    if me.ExtractingChecked? then Splitting else if me.SavedChecked? then BeingIndexed else Done
  }

  /** Some worker has passed the check and is about to commit the status. */
  ghost predicate AboutToCommit(s: State, status: DocumentStatus) {
    exists w :: w in s.workers && Checked(s.workers[w]) && Target(s.workers[w]) == status
  }

  ghost predicate Advances(status: DocumentStatus) {
    status == Splitting || status == BeingIndexed || status == Done
  }

  /** Every worker of a later state that has passed the check had passed it before. */
  ghost predicate CheckedBefore(s: State, later: State) {
    forall w :: w in later.workers && Checked(later.workers[w]) ==> w in s.workers && s.workers[w] == later.workers[w]
  }

  ghost predicate StaysPaused(c: Config, s: State, run: seq<Label>)
    requires Runs(c, s, run)
  {
    After(c, s, run).db.paused && (run == [] || StaysPaused(c, s, run[..|run| - 1]))
  }

  /** Under a pause nobody newly passes the check, and only a worker that has passed it
      commits. */
  lemma PausedStep(c: Config, s: State, l: Label)
    requires s.db.paused && Enabled(s, l)
    ensures CheckedBefore(s, Do(c, s, l))
    ensures var status := Do(c, s, l).db.status;
            status == s.db.status || !Advances(status) || AboutToCommit(s, status)
  {
    hide Chunks, ChunkIds, AddNode, MarkAll, FinishChunk, Remaining, AllCommitted, AllOver, FirstError;
  }

  lemma AboutToCommitBefore(s: State, later: State, status: DocumentStatus)
    requires CheckedBefore(s, later) && AboutToCommit(later, status)
    ensures AboutToCommit(s, status)
  {
    var w :| w in later.workers && Checked(later.workers[w]) && Target(later.workers[w]) == status;
    assert s.workers[w] == later.workers[w];
  }

  lemma {:induction false} PausedRun(c: Config, s: State, run: seq<Label>)
    requires Runs(c, s, run) && StaysPaused(c, s, run)
    ensures CheckedBefore(s, After(c, s, run))
    ensures var status := After(c, s, run).db.status;
            status == s.db.status || !Advances(status) || AboutToCommit(s, status)
  {
    if run != [] {
      var front, l := run[..|run| - 1], run[|run| - 1];
      var now := After(c, s, front);
      PausedRun(c, s, front);
      PausedStep(c, now, l);
      hide Advances, Do, AboutToCommit;
      if AboutToCommit(now, Do(c, now, l).db.status) {
        AboutToCommitBefore(s, now, Do(c, now, l).db.status);
      }
    }
  }

  ghost predicate ReachesWhilePaused(c: Config, s: State, status: DocumentStatus) {
    exists run :: Runs(c, s, run) && StaysPaused(c, s, run) && After(c, s, run).db.status == status
  }

  /** While a document is paused it can still move to splitting, indexing or completed if
      and only if some worker passed the check for just that commit before the pause. */
  lemma PausedAdvancesExactly(c: Config, s: State, status: DocumentStatus)
    requires s.db.paused && Advances(status) && status != s.db.status
    ensures ReachesWhilePaused(c, s, status) <==> AboutToCommit(s, status)
  {
    if ReachesWhilePaused(c, s, status) {
      var run :| Runs(c, s, run) && StaysPaused(c, s, run) && After(c, s, run).db.status == status;
      PausedRun(c, s, run);
    }
    if AboutToCommit(s, status) {
      var w :| w in s.workers && Checked(s.workers[w]) && Target(s.workers[w]) == status;
      Extend(c, s, [], CommitStatus(w));
      var run := [] + [CommitStatus(w)];
      assert run[..|run| - 1] == [];
      assert StaysPaused(c, s, run[..|run| - 1]);
      assert StaysPaused(c, s, run);
    }
  }

  /** So a paused document stays where it is once the workers that had passed the check
      are through. */
  lemma PausedDoesNotAdvance(c: Config, s: State, run: seq<Label>)
    requires forall w :: w in s.workers ==> !Checked(s.workers[w])
    requires Runs(c, s, run) && StaysPaused(c, s, run)
    ensures After(c, s, run).db.status == s.db.status || !Advances(After(c, s, run).db.status)
  {
    PausedRun(c, s, run);
  }

  /** Such a worker there may be: a pause that falls between the check and the commit
      does not hold the document back. */
  lemma PauseAfterCheck(c: Config) returns (s: State, run: seq<Label>)
    ensures Initial(s) && Runs(c, s, run)
    ensures After(c, s, run).db.paused && After(c, s, run).db.status != Splitting
    ensures ReachesWhilePaused(c, After(c, s, run), Splitting)
  {
    s := State(Db(Parsing, false, false, []), map[]);
    run := [];
    Extend(c, s, run, StartRun(0));
    run := run + [StartRun(0)];
    Extend(c, s, run, Check(0));
    run := run + [Check(0)];
    Extend(c, s, run, PauseColumn);
    run := run + [PauseColumn];
    var now := After(c, s, run);
    assert 0 in now.workers && Checked(now.workers[0]) && Target(now.workers[0]) == Splitting;
    PausedAdvancesExactly(c, now, Splitting);
  }

  /** No chunk is between its check of the flag and its commit. */
  ghost predicate NonePassed(s: State) {
    forall w, g :: w in s.workers && s.workers[w].Loading? && g in s.workers[w].chunks ==> !s.workers[w].chunks[g].Passed?
  }

  /** No segment has been completed since. */
  ghost predicate NothingCompleted(rows: seq<Segment>, later: seq<Segment>) {
    forall i :: 0 <= i < |later| && later[i].status == Completed ==> i < |rows| && rows[i].status == Completed
  }

  ghost predicate StaysFlagged(c: Config, s: State, run: seq<Label>)
    requires Runs(c, s, run)
  {
    After(c, s, run).db.flag && (run == [] || StaysFlagged(c, s, run[..|run| - 1]))
  }

  lemma FlaggedStep(c: Config, s: State, l: Label)
    requires s.db.flag && NonePassed(s) && Enabled(s, l)
    ensures NonePassed(Do(c, s, l)) && NothingCompleted(s.db.rows, Do(c, s, l).db.rows)
  {
    hide ChunkIds, FinishChunk, Remaining, AllCommitted, AllOver, FirstError, Early;
    if l.AddDocument? {
      hide MarkAll;
    } else {
      hide AddNode;
    }
  }

  /** While the pause flag is set no chunk completes a segment, once the chunks that had
      already checked it are through. */
  lemma {:induction false} FlaggedRun(c: Config, s: State, run: seq<Label>)
    requires NonePassed(s) && Runs(c, s, run) && StaysFlagged(c, s, run)
    ensures NonePassed(After(c, s, run)) && NothingCompleted(s.db.rows, After(c, s, run).db.rows)
  {
    if run != [] {
      FlaggedRun(c, s, run[..|run| - 1]);
      FlaggedStep(c, After(c, s, run[..|run| - 1]), run[|run| - 1]);
    }
  }

  // ---------- resume ----------

  /** A resume reloads the nodes of the unfinished segments and of no other. */
  lemma ResumeReloadsUnfinished(c: Config, s: State, w: WorkerId, id: string)
    requires Enabled(s, StartIndexing(w))
    ensures Do(c, s, StartIndexing(w)).db == s.db
    ensures id in NodeIds(Do(c, s, StartIndexing(w)).workers[w].nodes)
       <==> exists i :: 0 <= i < |s.db.rows| && s.db.rows[i].nodeId == id && s.db.rows[i].status != Completed
  {
    var rows := s.db.rows;
    RemainingMembers(rows);
    if exists i :: 0 <= i < |rows| && rows[i].nodeId == id && rows[i].status != Completed {
      var i :| 0 <= i < |rows| && rows[i].nodeId == id && rows[i].status != Completed;
      assert Node(rows[i].nodeId, rows[i].content) in Remaining(rows);
    }
  }

  /** The steps of an undisturbed resume. */
  predicate OwnStep(l: Label, w: WorkerId) {
    (l.Check? || l.CommitStatus? || l.CheckChunk? || l.CommitChunk?) && l.w == w
  }

  predicate OwnSteps(run: seq<Label>, w: WorkerId) {
    forall i :: 0 <= i < |run| ==> OwnStep(run[i], w)
  }

  function ChunkSteps(chunks: map<nat, Chunk>, g: nat): nat {
    if g !in chunks then 0 else if chunks[g].Todo? then 2 else if chunks[g].Passed? then 1 else 0
  }

  function StepsOfChunks(chunks: map<nat, Chunk>, k: nat): nat {
    if k == 0 then 0 else StepsOfChunks(chunks, k - 1) + ChunkSteps(chunks, k - 1)
  }

  /** How many steps the worker has still to take. */
  function StepsLeft(s: State, w: WorkerId): nat {
    if w !in s.workers then 0
    else if s.workers[w].Loading? then StepsOfChunks(s.workers[w].chunks, GROUPS) + 2
    else 1
  }

  predicate NoneFailed(chunks: map<nat, Chunk>) {
    forall g :: g in chunks ==> g < GROUPS && (chunks[g].Todo? || chunks[g].Passed? || chunks[g].Committed?)
  }

  /** The state of an undisturbed resume: not paused, nothing failed, and the worker is
      gone only when the document is completed. */
  predicate Resuming(s: State, w: WorkerId) {
    && !s.db.paused && !s.db.flag
    && if w !in s.workers then s.db.status == Done
       else
         && s.db.status == BeingIndexed
         && match s.workers[w]
            case Loading(_, chunks) => NoneFailed(chunks)
            case LoadedChecked(_, _) => true
            case _ => false
  }

  lemma {:induction false} OneChunkLess(chunks: map<nat, Chunk>, g: nat, chunk: Chunk, k: nat)
    ensures StepsOfChunks(chunks[g := chunk], k) + (if g < k then ChunkSteps(chunks, g) else 0)
         == StepsOfChunks(chunks, k) + (if g < k then ChunkSteps(chunks[g := chunk], g) else 0)
  {
    if k > 0 {
      OneChunkLess(chunks, g, chunk, k - 1);
    }
  }

  lemma {:induction false} NoStepsLeft(chunks: map<nat, Chunk>, k: nat)
    ensures StepsOfChunks(chunks, k) <= 2 * k
    ensures StepsOfChunks(chunks, k) == 0 <==> forall g :: g in chunks && g < k ==> ChunkSteps(chunks, g) == 0
  {
    if k > 0 {
      NoStepsLeft(chunks, k - 1);
    }
  }

  lemma OwnStepResumes(c: Config, s: State, w: WorkerId, l: Label)
    requires Resuming(s, w) && Enabled(s, l) && OwnStep(l, w)
    ensures Orderly(s, l) && Resuming(Do(c, s, l), w)
    ensures StepsLeft(Do(c, s, l), w) + 1 == StepsLeft(s, w)
  {
    hide ChunkIds, FinishChunk, Chunks, AddNode, MarkAll, Remaining;
    match l {
      case CheckChunk(_, g) =>
        OneChunkLess(s.workers[w].chunks, g, Passed, GROUPS);
      case CommitChunk(_, g) =>
        OneChunkLess(s.workers[w].chunks, g, Committed, GROUPS);
      case Check(_) =>
        NoStepsLeft(s.workers[w].chunks, GROUPS);
      case _ =>
    }
  }

  /** No step is left for the worker exactly when the document is completed. */
  lemma StuckMeansDone(s: State, w: WorkerId)
    requires Resuming(s, w)
    ensures (forall l :: OwnStep(l, w) ==> !Enabled(s, l)) <==> s.db.status == Done
    ensures s.db.status == Done <==> StepsLeft(s, w) == 0
  {
    if w in s.workers && s.workers[w].Loading? {
      var chunks := s.workers[w].chunks;
      if AllCommitted(chunks) {
        assert Enabled(s, Check(w)) && OwnStep(Check(w), w);
      } else {
        var g :| g in chunks && !chunks[g].Committed?;
        var l := if chunks[g].Todo? then CheckChunk(w, g) else CommitChunk(w, g);
        assert Enabled(s, l) && OwnStep(l, w);
      }
    } else if w in s.workers {
      assert Enabled(s, CommitStatus(w)) && OwnStep(CommitStatus(w), w);
    }
  }

  lemma StartResumes(c: Config, s: State, w: WorkerId)
    requires Enabled(s, StartIndexing(w)) && !s.db.paused && !s.db.flag
    ensures Resuming(Do(c, s, StartIndexing(w)), w)
    ensures StepsLeft(Do(c, s, StartIndexing(w)), w) <= 2 * GROUPS + 2
  {
    NoStepsLeft(Chunks(c, Remaining(s.db.rows)), GROUPS);
  }

  ghost predicate WaitingAt(s: State, i: nat) {
    i < |s.db.rows| && s.db.rows[i].status == Waiting
  }

  /** The resuming worker covers the segments, and when it is through they are done. */
  ghost predicate RowsResuming(c: Config, s: State, w: WorkerId) {
    if w in s.workers then WorkerInv(c, s.db, s.workers[w]) else AllCompleted(s.db.rows)
  }

  lemma OwnStepRows(c: Config, s: State, w: WorkerId, l: Label)
    requires Resuming(s, w) && Enabled(s, l) && OwnStep(l, w)
    ensures RowsResuming(c, s, w) ==> RowsResuming(c, Do(c, s, l), w)
    ensures forall i: nat :: WaitingAt(s, i) ==> WaitingAt(Do(c, s, l), i)
  {
    hide Covers, AllCompleted, ChunkIds, AllCommitted, NoneFailed;
    if RowsResuming(c, s, w) {
      var me := s.workers[w];
      if l.CheckChunk? || l.CommitChunk? {
        ChunkStepKeepsOwn(c, s, l);
      } else if l.CommitStatus? {
        CoveredByNothing(c, s.db.rows, me.nodes, me.chunks);
      }
    }
  }

  lemma {:induction false} OwnRunResumes(c: Config, s: State, w: WorkerId, rest: seq<Label>)
    requires Resuming(s, w) && Runs(c, s, rest) && OwnSteps(rest, w)
    ensures Resuming(After(c, s, rest), w)
    ensures StepsLeft(After(c, s, rest), w) + |rest| == StepsLeft(s, w)
    ensures RowsResuming(c, s, w) ==> RowsResuming(c, After(c, s, rest), w)
    ensures forall i: nat :: WaitingAt(s, i) ==> WaitingAt(After(c, s, rest), i)
  {
    hide Enabled, Do, Orderly, Resuming, StepsLeft, OwnStep, RowsResuming, WaitingAt;
    if rest != [] {
      var front, l := rest[..|rest| - 1], rest[|rest| - 1];
      assert forall i :: 0 <= i < |front| ==> front[i] == rest[i];
      OwnRunResumes(c, s, w, front);
      OwnStepResumes(c, After(c, s, front), w, l);
      OwnStepRows(c, After(c, s, front), w, l);
    }
  }

  /** Whatever happened to the document before, and whoever else is at work: a resume
      that is left alone, in whatever order its chunks go, takes at most 22 steps. It can
      go on until the document is completed, and then every segment is completed if and
      only if none was waiting when it began. */
  lemma ResumeCompletes(c: Config, s: State, w: WorkerId, rest: seq<Label>)
    requires Enabled(s, StartIndexing(w)) && !s.db.paused && !s.db.flag
    requires Runs(c, Do(c, s, StartIndexing(w)), rest) && OwnSteps(rest, w)
    ensures var end := After(c, Do(c, s, StartIndexing(w)), rest);
            && |rest| <= 2 * GROUPS + 2
            && ((forall l :: OwnStep(l, w) ==> !Enabled(end, l)) <==> end.db.status == Done)
            && (end.db.status == Done ==> (AllCompleted(end.db.rows) <==> NoneWaiting(s.db.rows)))
  {
    var start := Do(c, s, StartIndexing(w));
    StartResumes(c, s, w);
    OwnRunResumes(c, start, w, rest);
    var end := After(c, start, rest);
    StuckMeansDone(end, w);
    if NoneWaiting(s.db.rows) {
      RemainingCovers(c, s.db.rows);
    } else {
      var i :| 0 <= i < |s.db.rows| && s.db.rows[i].status == Waiting;
      assert WaitingAt(start, i) && WaitingAt(end, i);
    }
  }
}
