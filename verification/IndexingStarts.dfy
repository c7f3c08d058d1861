/** Which starts of a worker are safe: what happens when the hypotheses of the safety
    theorem are not met. */
module IndexingStarts {
  import opened IndexingRows
  import opened IndexingSteps

  // ---------- reaching a state ----------

  /** Nothing fails, crashes or is retried. */
  predicate SmoothStep(l: Label) {
    !l.Fail? && !l.FailChunk? && !l.GiveUp? && !l.Crash? && !l.Retry?
  }

  predicate Smooth(run: seq<Label>) {
    forall i :: 0 <= i < |run| ==> SmoothStep(run[i])
  }

  /** Some orderly run, a smooth one if so asked, leads from one state to the other. */
  ghost predicate Reaches(c: Config, s: State, t: State, smooth: bool) {
    exists run :: Runs(c, s, run) && OrderlyRun(c, s, run) && After(c, s, run) == t && (smooth ==> Smooth(run))
  }

  lemma Stay(c: Config, s: State)
    ensures Reaches(c, s, s, true)
  {
    assert Runs(c, s, []) && OrderlyRun(c, s, []) && After(c, s, []) == s && Smooth([]);
  }

  lemma Step(c: Config, s: State, t: State, smooth: bool, l: Label)
    requires Reaches(c, s, t, smooth) && Enabled(t, l) && Orderly(t, l) && (smooth ==> SmoothStep(l))
    ensures Reaches(c, s, Do(c, t, l), smooth)
  {
    var run :| Runs(c, s, run) && OrderlyRun(c, s, run) && After(c, s, run) == t && (smooth ==> Smooth(run));
    hide Runs, OrderlyRun, After, Enabled, Orderly, Do;
    Extend(c, s, run, l);
    assert smooth ==> Smooth(run + [l]);
  }

  lemma {:induction false} RunsAppend(c: Config, s: State, a: seq<Label>, b: seq<Label>)
    requires Runs(c, s, a) && Runs(c, After(c, s, a), b)
    ensures Runs(c, s, a + b) && After(c, s, a + b) == After(c, After(c, s, a), b)
    ensures OrderlyRun(c, s, a) && OrderlyRun(c, After(c, s, a), b) ==> OrderlyRun(c, s, a + b)
  {
    if b == [] {
      assert a + b == a;
    } else {
      var front, l := b[..|b| - 1], b[|b| - 1];
      RunsAppend(c, s, a, front);
      assert a + b == (a + front) + [l];
      hide Enabled, Orderly, Do;
      Extend(c, s, a + front, l);
    }
  }

  lemma Onward(c: Config, s: State, t: State, u: State, smooth: bool)
    requires Reaches(c, s, t, smooth) && Reaches(c, t, u, smooth)
    ensures Reaches(c, s, u, smooth)
  {
    var a :| Runs(c, s, a) && OrderlyRun(c, s, a) && After(c, s, a) == t && (smooth ==> Smooth(a));
    var b :| Runs(c, t, b) && OrderlyRun(c, t, b) && After(c, t, b) == u && (smooth ==> Smooth(b));
    hide Runs, OrderlyRun, After;
    RunsAppend(c, s, a, b);
    assert smooth ==> Smooth(a + b);
  }

  lemma Roughly(c: Config, s: State, t: State)
    requires Reaches(c, s, t, true)
    ensures Reaches(c, s, t, false)
  {
  }

  // ---------- safe and broken ----------

  /** However the document goes on, completed means that all segments are. */
  ghost predicate Safe(c: Config, s: State) {
    forall t :: Reaches(c, s, t, false) && t.db.status == Done ==> AllCompleted(t.db.rows)
  }

  /** Completed for good, with a segment that is not. */
  ghost predicate Broken(s: State) {
    s.workers == map[] && s.db.status == Done && !AllCompleted(s.db.rows)
  }

  ghost predicate CanBreak(c: Config, s: State) {
    exists t :: Reaches(c, s, t, false) && Broken(t)
  }

  lemma BreaksLater(c: Config, s: State, t: State)
    requires Reaches(c, s, t, false) && CanBreak(c, t)
    ensures CanBreak(c, s)
  {
    var u :| Reaches(c, t, u, false) && Broken(u);
    hide Reaches, Broken;
    Onward(c, s, t, u, false);
  }

  // ---------- how a document breaks ----------

  lemma {:induction false} CrashAll(c: Config, s: State)
    ensures Reaches(c, s, State(s.db, map[]), false)
    decreases |s.workers|
  {
    Stay(c, s);
    Roughly(c, s, s);
    hide Reaches, Runs, After;
    if s.workers != map[] {
      var w :| w in s.workers;
      var next := Do(c, s, Crash(w));
      Step(c, s, s, false, Crash(w));
      assert next.workers == s.workers - {w};
      CrashAll(c, next);
      Onward(c, s, next, State(s.db, map[]), false);
    } else {
      assert s == State(s.db, map[]);
    }
  }

  function Running(db: Db): Db {
    db.(paused := false, flag := false)
  }

  lemma Unpause(c: Config, s: State)
    ensures Reaches(c, s, State(Running(s.db), s.workers), true)
  {
    Stay(c, s);
    hide Reaches;
    Step(c, s, s, true, RecoverFlag);
    var next := Do(c, s, RecoverFlag);
    if s.db.paused {
      Step(c, s, next, true, RecoverColumn);
    }
  }

  /** A build that finds nothing to save marks what is there and completes the document. */
  lemma EmptyBuild(c: Config, s: State)
    requires s.workers == map[] && Early(s.db.status) && !s.db.paused
    ensures Reaches(c, s, State(s.db.(status := Done, rows := MarkAll(s.db.rows)), map[]), true)
  {
    Stay(c, s);
    hide Reaches, MarkAll, Remaining, FinishChunk, AddNode;
    Step(c, s, s, true, StartRun(0));
    var t := Do(c, s, StartRun(0));
    Step(c, s, t, true, Check(0));
    t := Do(c, t, Check(0));
    Step(c, s, t, true, CommitStatus(0));
    t := Do(c, t, CommitStatus(0));
    Step(c, s, t, true, Transform(0, []));
    t := Do(c, t, Transform(0, []));
    assert t == State(s.db.(status := Splitting), map[0 := Saving([], 0)]);
    EmptySave(c, s, t);
  }

  lemma EmptySave(c: Config, s: State, t: State)
    requires Reaches(c, s, t, true) && t.workers == map[0 := Saving([], 0)] && !t.db.paused
    ensures Reaches(c, s, State(t.db.(status := Done, rows := MarkAll(t.db.rows)), map[]), true)
  {
    hide Reaches, MarkAll, Remaining, FinishChunk, AddNode;
    var u := t;
    Step(c, s, u, true, Check(0));
    u := Do(c, u, Check(0));
    Step(c, s, u, true, CommitStatus(0));
    u := Do(c, u, CommitStatus(0));
    Step(c, s, u, true, CommitSegments(0));
    u := Do(c, u, CommitSegments(0));
    assert Chunks(c, []) == map[];
    Step(c, s, u, true, Check(0));
    u := Do(c, u, Check(0));
    Step(c, s, u, true, CommitStatus(0));
    u := Do(c, u, CommitStatus(0));
    assert u == State(t.db.(status := Done, rows := MarkAll(t.db.rows)), map[]);
  }

  /** Beside any other worker, whatever it is at: it fails late, the document is retried,
      and the segments of the new worker, which crashes, are taken for old ones. */
  lemma StartBesideWorkerBreaks(c: Config, s: State, w: WorkerId, v: WorkerId)
    requires w in s.workers && v in s.workers && v != w && s.workers[w] == Extracting
    ensures CanBreak(c, s)
  {
    Unpause(c, s);
    var t := State(Running(s.db), s.workers);
    Roughly(c, s, t);
    hide Reaches, CanBreak, MarkAll, Remaining, FinishChunk, AddNode, Chunks, ChunkIds, AllCommitted, AllOver, FirstError;
    Step(c, s, t, false, Check(w));
    t := Do(c, t, Check(w));
    assert t == State(Running(s.db), s.workers[w := ExtractingChecked]);
    Step(c, s, t, false, CommitStatus(w));
    t := Do(c, t, CommitStatus(w));
    assert t == State(Running(s.db).(status := Splitting), s.workers[w := Transforming]);
    LateTransformBreaks(c, t, w, v);
    BreaksLater(c, s, t);
  }

  lemma LateTransformBreaks(c: Config, s: State, w: WorkerId, v: WorkerId)
    requires w in s.workers && v in s.workers && v != w && s.workers[w] == Transforming && !s.db.paused
    ensures CanBreak(c, s)
  {
    Stay(c, s);
    Roughly(c, s, s);
    hide Reaches, CanBreak, MarkAll, Remaining, FinishChunk, AddNode, Chunks, ChunkIds, AllCommitted, AllOver, FirstError;
    var node := Node("", "");
    Step(c, s, s, false, Transform(w, [node]));
    var t := Do(c, s, Transform(w, [node]));
    assert t.workers == s.workers[w := Saving([node], 0)];
    LateFailureBreaks(c, t, w, v, node);
    BreaksLater(c, s, t);
  }

  lemma LateFailureBreaks(c: Config, s: State, w: WorkerId, v: WorkerId, node: Node)
    requires w in s.workers && v in s.workers && v != w && s.workers[w] == Saving([node], 0) && !s.db.paused
    ensures CanBreak(c, s)
  {
    var t := State(s.db.(status := Parsing, rows := []), Without(s.workers, v));
    FailAndRetry(c, s, v);
    LateSaveBreaks(c, t, w, node);
    hide Reaches, CanBreak;
    BreaksLater(c, s, t);
  }

  lemma FailAndRetry(c: Config, s: State, v: WorkerId)
    requires v in s.workers
    ensures Reaches(c, s, State(s.db.(status := Parsing, rows := []), Without(s.workers, v)), false)
  {
    var t := State(s.db.(status := Failed), Without(s.workers, v));
    Stay(c, s);
    Roughly(c, s, s);
    FailDoes(c, s, v);
    RetryDoes(c, t);
    hide Reaches, Without, Do, Enabled, Orderly;
    Step(c, s, s, false, Fail(v));
    Step(c, s, t, false, Retry);
  }

  lemma FailDoes(c: Config, s: State, v: WorkerId)
    requires v in s.workers
    ensures Enabled(s, Fail(v)) && Orderly(s, Fail(v))
    ensures Do(c, s, Fail(v)) == State(s.db.(status := Failed), Without(s.workers, v))
  {
  }

  lemma RetryDoes(c: Config, s: State)
    requires s.db.status == Failed
    ensures Enabled(s, Retry) && Orderly(s, Retry)
    ensures Do(c, s, Retry) == State(s.db.(status := Parsing, rows := []), s.workers)
  {
  }

  lemma LateSaveBreaks(c: Config, s: State, w: WorkerId, node: Node)
    requires w in s.workers && s.workers[w] == Saving([node], 0)
    requires s.db.status == Parsing && s.db.rows == [] && !s.db.paused
    ensures CanBreak(c, s)
  {
    Stay(c, s);
    Roughly(c, s, s);
    hide Reaches, CanBreak;
    Step(c, s, s, false, AddDocument(w));
    var t := Do(c, s, AddDocument(w));
    assert t.db.rows == [Segment(node.id, node.content, Waiting, false)];
    LeftoverBreaks(c, t);
    BreaksLater(c, s, t);
  }

  /** A segment left over when a document is built from scratch is never loaded. */
  lemma LeftoverBreaks(c: Config, s: State)
    requires Early(s.db.status) && !s.db.paused && s.db.rows != []
    ensures CanBreak(c, s)
  {
    CrashAll(c, s);
    var t := State(s.db, map[]);
    var u := State(s.db.(status := Done, rows := MarkAll(s.db.rows)), map[]);
    EmptyBuild(c, t);
    assert MarkAll(s.db.rows)[0].status == Indexing;
    assert Broken(u);
    Roughly(c, t, u);
    hide Reaches;
    Onward(c, s, t, u, false);
  }

  /** A resuming worker can take its steps to the end; what is waiting keeps waiting. */
  lemma {:induction false} ResumeToTheEnd(c: Config, s: State, w: WorkerId) returns (t: State)
    requires Resuming(s, w)
    ensures Reaches(c, s, t, true) && t.db.status == Done
    ensures forall i: nat :: WaitingAt(s, i) ==> WaitingAt(t, i)
    decreases StepsLeft(s, w)
  {
    StuckMeansDone(s, w);
    Stay(c, s);
    if s.db.status == Done {
      t := s;
    } else {
      var l :| OwnStep(l, w) && Enabled(s, l);
      OwnStepResumes(c, s, w, l);
      OwnStepRows(c, s, w, l);
      Step(c, s, s, true, l);
      var next := Do(c, s, l);
      hide Reaches, WaitingAt, Do, Enabled, Resuming;
      t := ResumeToTheEnd(c, next, w);
      Onward(c, s, next, t, true);
    }
  }

  lemma ResumeOfWaitingBreaks(c: Config, s: State, w: WorkerId)
    requires Enabled(s, StartIndexing(w)) && !NoneWaiting(s.db.rows)
    ensures CanBreak(c, Do(c, s, StartIndexing(w)))
  {
    var start := Do(c, s, StartIndexing(w));
    var running := State(Running(s.db), s.workers);
    var t := State(Running(start.db), start.workers);
    Unpause(c, start);
    StartResumes(c, running, w);
    assert t == Do(c, running, StartIndexing(w));
    var i :| 0 <= i < |s.db.rows| && s.db.rows[i].status == Waiting;
    assert WaitingAt(t, i);
    var u := ResumeToTheEnd(c, t, w);
    assert WaitingAt(u, i);
    CrashAll(c, u);
    assert Broken(State(u.db, map[]));
    hide Resuming, WaitingAt, Broken, Do, Enabled;
    Roughly(c, start, t);
    Roughly(c, t, u);
    hide Reaches;
    Onward(c, start, t, u, false);
    Onward(c, start, u, State(u.db, map[]), false);
  }

  // ---------- the hypotheses are exact ----------

  lemma OrderlyIsSafe(c: Config, s: State, before: seq<Label>, l: Label)
    requires Initial(s) && Runs(c, s, before) && OrderlyRun(c, s, before)
    requires Enabled(After(c, s, before), l) && Orderly(After(c, s, before), l)
    ensures Safe(c, Do(c, After(c, s, before), l))
  {
    Extend(c, s, before, l);
    var next := After(c, s, before + [l]);
    forall t | Reaches(c, next, t, false) && t.db.status == Done ensures AllCompleted(t.db.rows) {
      var rest :| Runs(c, next, rest) && OrderlyRun(c, next, rest) && After(c, next, rest) == t;
      RunsAppend(c, s, before + [l], rest);
      CompletedMeansAllCompleted(c, s, before + [l] + rest);
    }
  }

  /** After any orderly history of a document, and for every step that can be taken: all
      orderly continuations are safe if and only if the step is orderly, that is, if it
      does not build from scratch beside a live worker nor resume with a segment waiting.
      If it is not, the document can end up completed for good with an unfinished segment. */
  lemma SafeExactly(c: Config, s: State, before: seq<Label>, l: Label)
    requires Initial(s) && Runs(c, s, before) && OrderlyRun(c, s, before)
    requires Enabled(After(c, s, before), l)
    ensures var now := After(c, s, before);
            && (Safe(c, Do(c, now, l)) <==> Orderly(now, l))
            && (CanBreak(c, Do(c, now, l)) <==> !Orderly(now, l))
  {
    var now := After(c, s, before);
    if Orderly(now, l) {
      OrderlyIsSafe(c, s, before, l);
    } else if l.StartIndexing? {
      ResumeOfWaitingBreaks(c, now, l.w);
    } else {
      var v :| v in now.workers;
      StartBesideWorkerBreaks(c, Do(c, now, l), l.w, v);
    }
  }

  // ---------- a recovery beside a worker that is still transforming ----------

  /** Worker w saves, marks and loads its one node, and completes the document. */
  lemma FinishOne(c: Config, s: State, t: State, w: WorkerId, node: Node)
    requires Reaches(c, s, t, true) && !t.db.paused && !t.db.flag
    requires w in t.workers && t.workers[w] == Saving([node], 1)
    ensures Reaches(c, s, State(t.db.(status := Done, rows := FinishChunk(MarkAll(t.db.rows), {node.id})),
                                t.workers - {w}), true)
  {
    OneChunk(c, node);
    var g := GroupOf(c.hash, node);
    hide Reaches, MarkAll, Remaining, FinishChunk, AddNode, Chunks, ChunkIds, GroupOf;
    var u := t;
    Step(c, s, u, true, Check(w));
    u := Do(c, u, Check(w));
    Step(c, s, u, true, CommitStatus(w));
    u := Do(c, u, CommitStatus(w));
    Step(c, s, u, true, CommitSegments(w));
    u := Do(c, u, CommitSegments(w));
    assert u == State(t.db.(status := BeingIndexed, rows := MarkAll(t.db.rows)), t.workers[w := Loading([node], map[g := Todo])]);
    FinishChunkOfOne(c, s, u, w, node, g);
    assert u.workers - {w} == t.workers - {w};
  }

  lemma FinishChunkOfOne(c: Config, s: State, t: State, w: WorkerId, node: Node, g: nat)
    requires Reaches(c, s, t, true) && !t.db.paused && !t.db.flag
    requires w in t.workers && t.workers[w] == Loading([node], map[g := Todo]) && ChunkIds(c, [node], g) == {node.id}
    ensures Reaches(c, s, State(t.db.(status := Done, rows := FinishChunk(t.db.rows, {node.id})), t.workers - {w}), true)
  {
    hide Reaches, FinishChunk, ChunkIds;
    var u := t;
    Step(c, s, u, true, CheckChunk(w, g));
    u := Do(c, u, CheckChunk(w, g));
    Step(c, s, u, true, CommitChunk(w, g));
    u := Do(c, u, CommitChunk(w, g));
    assert u.workers[w] == Loading([node], map[g := Committed]);
    Step(c, s, u, true, Check(w));
    u := Do(c, u, Check(w));
    Step(c, s, u, true, CommitStatus(w));
    u := Do(c, u, CommitStatus(w));
    assert u.workers == t.workers - {w};
  }

  lemma OneChunk(c: Config, node: Node)
    ensures var g := GroupOf(c.hash, node);
            Chunks(c, [node]) == map[g := Todo] && ChunkIds(c, [node], g) == {node.id}
  {
    OneWaiting(c, node, [Segment(node.id, node.content, Waiting, false)]);
    OneGroup(c, node, GroupOf(c.hash, node));
  }

  /** Pausing and recovering a document while its worker transforms starts a second worker
      beside it. Without any failure or crash, the document ends up completed for good
      with the segment of one of them unfinished, for any two pieces of different ids. */
  lemma RecoveredBesideWorker(c: Config, a: Node, b: Node) returns (s: State, paused: State, now: State, end: State)
    requires a.id != b.id
    ensures Initial(s) && Reaches(c, s, paused, true) && paused.db.paused && paused.db.flag
    ensures Reaches(c, paused, now, true) && now.workers == map[0 := Transforming] && Enabled(now, StartSplitting(1))
    ensures Reaches(c, Do(c, now, StartSplitting(1)), end, true)
    ensures end == State(Db(Done, false, false, [Segment(a.id, a.content, Indexing, true),
                                                 Segment(b.id, b.content, Completed, true)]), map[])
  {
    s := State(Db(Parsing, false, false, []), map[]);
    paused := PauseWhileTransforming(c, s);
    now := RecoverWhileTransforming(c, paused);
    var start := Do(c, now, StartSplitting(1));
    Stay(c, start);
    hide Reaches, FinishChunk, MarkAll;
    var t := start;
    Step(c, start, t, true, Check(1));
    t := Do(c, t, Check(1));
    Step(c, start, t, true, CommitStatus(1));
    t := Do(c, t, CommitStatus(1));
    assert t == State(Db(Splitting, false, false, []), map[0 := Transforming, 1 := Transforming]);
    t := SaveBoth(c, start, t, a, b);
    end := FinishBoth(c, start, t, a, b);
  }

  lemma FinishBoth(c: Config, s: State, t: State, a: Node, b: Node) returns (u: State)
    requires a.id != b.id && Reaches(c, s, t, true)
    requires t == State(Db(Splitting, false, false, BothSaved(a, b)), map[0 := Saving([a], 1), 1 := Saving([b], 1)])
    ensures Reaches(c, s, u, true)
    ensures u == State(Db(Done, false, false, [Segment(a.id, a.content, Indexing, true),
                                               Segment(b.id, b.content, Completed, true)]), map[])
  {
    TwoRows(a, b);
    hide Reaches, FinishChunk, MarkAll;
    FinishOne(c, s, t, 0, a);
    var rows := FinishChunk(MarkAll(t.db.rows), {a.id});
    u := State(t.db.(status := Done, rows := rows), t.workers - {0});
    FinishOne(c, s, u, 1, b);
    u := State(u.db.(status := Done, rows := FinishChunk(MarkAll(rows), {b.id})), u.workers - {1});
    assert u.workers == map[];
  }

  lemma PauseWhileTransforming(c: Config, s: State) returns (t: State)
    requires s == State(Db(Parsing, false, false, []), map[])
    ensures Reaches(c, s, t, true)
    ensures t == State(Db(Splitting, true, true, []), map[0 := Transforming])
  {
    Stay(c, s);
    hide Reaches;
    Step(c, s, s, true, StartRun(0));
    t := Do(c, s, StartRun(0));
    assert t == State(Db(Parsing, false, false, []), map[0 := Extracting]);
    Step(c, s, t, true, Check(0));
    t := Do(c, t, Check(0));
    assert t == State(Db(Parsing, false, false, []), map[0 := ExtractingChecked]);
    Step(c, s, t, true, CommitStatus(0));
    t := PauseAt(c, s, Do(c, t, CommitStatus(0)));
  }

  lemma PauseAt(c: Config, s: State, t: State) returns (u: State)
    requires Reaches(c, s, t, true) && t.db.status == Splitting
    ensures Reaches(c, s, u, true) && u == State(t.db.(paused := true, flag := true), t.workers)
  {
    hide Reaches;
    Step(c, s, t, true, PauseColumn);
    u := Do(c, t, PauseColumn);
    Step(c, s, u, true, PauseFlag);
    u := Do(c, u, PauseFlag);
  }

  lemma RecoverWhileTransforming(c: Config, s: State) returns (t: State)
    requires s == State(Db(Splitting, true, true, []), map[0 := Transforming])
    ensures Reaches(c, s, t, true)
    ensures t == State(Db(Splitting, false, false, []), map[0 := Transforming])
  {
    Stay(c, s);
    hide Reaches;
    Step(c, s, s, true, RecoverColumn);
    t := Do(c, s, RecoverColumn);
    Step(c, s, t, true, RecoverFlag);
    t := Do(c, t, RecoverFlag);
  }

  function BothSaved(a: Node, b: Node): seq<Segment> {
    [Segment(a.id, a.content, Waiting, false), Segment(b.id, b.content, Waiting, false)]
  }

  lemma SaveBoth(c: Config, s: State, t: State, a: Node, b: Node) returns (u: State)
    requires a.id != b.id && Reaches(c, s, t, true)
    requires t == State(Db(Splitting, false, false, []), map[0 := Transforming, 1 := Transforming])
    ensures Reaches(c, s, u, true)
    ensures u == State(Db(Splitting, false, false, BothSaved(a, b)), map[0 := Saving([a], 1), 1 := Saving([b], 1)])
  {
    hide Reaches;
    u := t;
    Step(c, s, u, true, Transform(0, [a]));
    u := Do(c, u, Transform(0, [a]));
    Step(c, s, u, true, AddDocument(0));
    u := Do(c, u, AddDocument(0));
    Step(c, s, u, true, Transform(1, [b]));
    u := Do(c, u, Transform(1, [b]));
    assert !HasRow(u.db.rows, b.id);
    Step(c, s, u, true, AddDocument(1));
    u := Do(c, u, AddDocument(1));
  }

  /** The second marking undoes what the first worker has completed. */
  lemma TwoRows(a: Node, b: Node)
    requires a.id != b.id
    ensures FinishChunk(MarkAll(FinishChunk(MarkAll(BothSaved(a, b)), {a.id})), {b.id})
         == [Segment(a.id, a.content, Indexing, true), Segment(b.id, b.content, Completed, true)]
  {
    var second := Segment(b.id, b.content, Indexing, false);
    var marked := [Segment(a.id, a.content, Indexing, false), second];
    assert MarkAll(BothSaved(a, b)) == marked;
    var first := FinishChunk(marked, {a.id});
    assert first == [Segment(a.id, a.content, Completed, true), second];
    assert MarkAll(first) == [Segment(a.id, a.content, Indexing, true), second];
  }
}
