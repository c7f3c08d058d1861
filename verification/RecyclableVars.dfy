/** `RecyclableContextVar`: context variables that forget their value when the thread
    takes its next request, told by two counters, against the plain specification of
    variables that are cleared. */
module RecyclableVars {
  import opened Wrappers

  // ---------- the classes ----------

  /** The context variable all instances share; unset until the first request. */
  class ThreadRecycles {
    var recycles: Option<nat>

    constructor ()
      ensures recycles == None
    {
      recycles := None;
    }

    function Current(): nat
      reads this
    {
      if recycles.Some? then recycles.value else 0
    }

    /** `increment_thread_recycles` */
    method Increment()
      modifies this
      ensures recycles == Incremented(old(recycles))
      ensures recycles == Some(if old(recycles).None? then 0 else old(recycles).value + 1)
    {
      match recycles {
        case Some(n) => recycles := Some(n + 1);
        case None => recycles := Some(0);
      }
    }
  }

  datatype Answer<+V> = Found(value: V) | Default(value: V) | LookupError

  class RecyclableContextVar<V> {
    const thread: ThreadRecycles
    var updates: nat
    var contextVar: Option<V>

    constructor (thread: ThreadRecycles)
      ensures this.thread == thread && updates == 0 && contextVar == None
    {
      this.thread, updates, contextVar := thread, 0, None;
    }

    function Content(): Var<V>
      reads this
    {
      Var(updates, contextVar)
    }

    /** `get` */
    method Get(default: Option<V>) returns (r: Answer<V>)
      modifies `updates
      ensures Content() == Touched(old(Content()), thread.Current())
      ensures Held(old(Content()), thread.Current()) == if r.Found? then Some(r.value) else None
      // only a variable that is ahead of the thread is read; all others count as cleared
      ensures r == if thread.Current() < old(updates) then
                     if contextVar.Some? then Found(contextVar.value) else LookupError
                   else if default.Some? then Default(default.value) else LookupError
      ensures updates == if old(updates) < thread.Current() then thread.Current() else old(updates)
    {
      var recycles, before := thread.Current(), updates;
      if recycles > before {
        updates := recycles;
      }
      if recycles < before {
        return if contextVar.Some? then Found(contextVar.value) else LookupError;
      } else if default.Some? {
        return Default(default.value);
      } else {
        return LookupError;
      }
    }

    /** `set` */
    method Set(value: V)
      modifies `updates, `contextVar
      ensures Content() == Stored(old(Content()), thread.Current(), value)
      ensures contextVar == Some(value) && thread.Current() < updates
      ensures updates == if old(updates) <= thread.Current() then thread.Current() + 1 else old(updates)
    {
      var recycles, before := thread.Current(), updates;
      if recycles > before {
        updates := recycles;
      }
      if updates == thread.Current() {
        updates := updates + 1;
      }
      contextVar := Some(value);
    }
  }

  // ---------- what the methods compute ----------

  datatype Var<+V> = Var(updates: nat, value: Option<V>)

  function Incremented(recycles: Option<nat>): Option<nat> {
    if recycles.Some? then Some(recycles.value + 1) else Some(0)
  }

  function Touched<V>(x: Var<V>, recycles: nat): Var<V> {
    if recycles > x.updates then x.(updates := recycles) else x
  }

  /** What `get` finds. */
  function Held<V>(x: Var<V>, recycles: nat): Option<V> {
    if recycles < x.updates then x.value else None
  }

  /** The counter is ahead but nothing is stored. Reading then raises whatever the default;
      no run of the operations leads here. */
  predicate Torn<V>(x: Var<V>, recycles: nat) {
    recycles < x.updates && x.value.None?
  }

  function Stored<V>(x: Var<V>, recycles: nat, value: V): Var<V> {
    var updates := if recycles > x.updates then recycles else x.updates;
    Var(if updates == recycles then updates + 1 else updates, Some(value))
  }

  // ---------- a thread and its operations ----------

  type Name = string

  datatype Thread<+V> = Thread(recycles: Option<nat>, vars: map<Name, Var<V>>)

  datatype Op<+V> = Increment | Get(name: Name) | Set(name: Name, value: V)

  function Count<V>(t: Thread<V>): nat {
    if t.recycles.Some? then t.recycles.value else 0
  }

  function VarOf<V>(t: Thread<V>, name: Name): Var<V> {
    if name in t.vars then t.vars[name] else Var(0, None)
  }

  function Do<V>(t: Thread<V>, op: Op<V>): Thread<V> {
    match op
    case Increment => t.(recycles := Incremented(t.recycles))
    case Get(name) => t.(vars := t.vars[name := Touched(VarOf(t, name), Count(t))])
    case Set(name, value) => t.(vars := t.vars[name := Stored(VarOf(t, name), Count(t), value)])
  }

  /** The answers of all the gets, in order. */
  function Answers<V>(t: Thread<V>, ops: seq<Op<V>>): seq<Option<V>>
    decreases |ops|
  {
    if ops == [] then []
    else
      (if ops[0].Get? then [Held(VarOf(t, ops[0].name), Count(t))] else []) + Answers(Do(t, ops[0]), ops[1..])
  }

  // ---------- the specification ----------

  /** Variables that are really cleared. `clears` says of an increment whether it is
      one that clears: all of them, or all but the first. */
  datatype Spec<+V> = Spec(values: map<Name, V>, started: bool)

  function SpecDo<V>(s: Spec<V>, op: Op<V>, firstClears: bool): Spec<V> {
    match op
    case Increment => Spec(if s.started || firstClears then map[] else s.values, true)
    case Get(name) => s
    case Set(name, value) => s.(values := s.values[name := value])
  }

  function SpecAnswers<V>(s: Spec<V>, ops: seq<Op<V>>, firstClears: bool): seq<Option<V>>
    decreases |ops|
  {
    if ops == [] then []
    else
      (if !ops[0].Get? then [] else if ops[0].name in s.values then [Some(s.values[ops[0].name])] else [None])
      + SpecAnswers(SpecDo(s, ops[0], firstClears), ops[1..], firstClears)
  }

  /** What the counters mean: a variable never runs more than one ahead of the thread,
      and it holds its value exactly when it does. */
  ghost predicate Represents<V(!new)>(t: Thread<V>, s: Spec<V>) {
    && (s.started <==> t.recycles.Some?)
    && (forall name :: VarOf(t, name).updates <= Count(t) + 1)
    && (forall name :: name in s.values <==> VarOf(t, name).updates == Count(t) + 1)
    && (forall name :: name in s.values ==> VarOf(t, name).value == Some(s.values[name]))
  }

  lemma StepRepresents<V(!new)>(t: Thread<V>, s: Spec<V>, op: Op<V>)
    requires Represents(t, s)
    ensures Represents(Do(t, op), SpecDo(s, op, false))
    ensures op.Get? ==>
              && !Torn(VarOf(t, op.name), Count(t))
              && Held(VarOf(t, op.name), Count(t)) == if op.name in s.values then Some(s.values[op.name]) else None
  {
    var t' := Do(t, op);
    if op.Increment? {
      assert forall name :: VarOf(t', name) == VarOf(t, name);
    } else {
      assert forall name :: name != op.name ==> VarOf(t', name) == VarOf(t, name);
    }
  }

  /** For every sequence of operations on any number of variables, the code answers as
      variables do that every increment but the first clears. */
  lemma {:induction false} ClearedByAllButFirst<V(!new)>(t: Thread<V>, s: Spec<V>, ops: seq<Op<V>>)
    requires Represents(t, s)
    ensures Answers(t, ops) == SpecAnswers(s, ops, false)
    decreases |ops|
  {
    if ops != [] {
      StepRepresents(t, s, ops[0]);
      ClearedByAllButFirst(Do(t, ops[0]), SpecDo(s, ops[0], false), ops[1..]);
    }
  }

  function NewThread<V>(): Thread<V> {
    Thread(None, map[])
  }

  function NewSpec<V>(): Spec<V> {
    Spec(map[], false)
  }

  predicate IncrementFree<V>(ops: seq<Op<V>>) {
    forall i :: 0 <= i < |ops| ==> !ops[i].Increment?
  }

  predicate SetFree<V>(ops: seq<Op<V>>) {
    forall i :: 0 <= i < |ops| ==> !ops[i].Set?
  }

  lemma {:induction false} SpecsAgreeOnceStarted<V>(s: Spec<V>, ops: seq<Op<V>>)
    requires s.started
    ensures SpecAnswers(s, ops, false) == SpecAnswers(s, ops, true)
    decreases |ops|
  {
    if ops != [] {
      SpecsAgreeOnceStarted(SpecDo(s, ops[0], true), ops[1..]);
    }
  }

  function SpecAfter<V>(s: Spec<V>, ops: seq<Op<V>>, firstClears: bool): Spec<V>
    decreases |ops|
  {
    if ops == [] then s else SpecAfter(SpecDo(s, ops[0], firstClears), ops[1..], firstClears)
  }

  lemma {:induction false} SpecAnswersAppend<V>(s: Spec<V>, a: seq<Op<V>>, b: seq<Op<V>>, firstClears: bool)
    ensures SpecAnswers(s, a + b, firstClears)
         == SpecAnswers(s, a, firstClears) + SpecAnswers(SpecAfter(s, a, firstClears), b, firstClears)
    decreases |a|
  {
    if a == [] {
      assert a + b == b;
    } else {
      assert (a + b)[1..] == a[1..] + b;
      SpecAnswersAppend(SpecDo(s, a[0], firstClears), a[1..], b, firstClears);
    }
  }

  lemma {:induction false} BeforeFirstIncrement<V>(s: Spec<V>, before: seq<Op<V>>)
    requires IncrementFree(before)
    ensures SpecAnswers(s, before, false) == SpecAnswers(s, before, true)
    ensures SpecAfter(s, before, false) == SpecAfter(s, before, true)
    ensures SpecAfter(s, before, true).started == s.started
    ensures SetFree(before) ==> SpecAfter(s, before, true).values == s.values
    ensures forall name :: name in s.values ==> name in SpecAfter(s, before, true).values
    ensures forall i :: 0 <= i < |before| && before[i].Set? ==> before[i].name in SpecAfter(s, before, true).values
    decreases |before|
  {
    if before != [] {
      BeforeFirstIncrement(SpecDo(s, before[0], true), before[1..]);
      forall i | 0 <= i < |before| && before[i].Set? ensures before[i].name in SpecAfter(s, before, true).values {
        if i > 0 {
          assert before[i] == before[1..][i - 1];
        }
      }
    }
  }

  lemma NewRepresents<V(!new)>()
    ensures Represents(NewThread<V>(), NewSpec<V>())
  {
  }

  ghost predicate AlwaysCleared<V(!new)>(before: seq<Op<V>>) {
    forall rest: seq<Op<V>> ::
      Answers(NewThread(), before + [Increment] + rest) == SpecAnswers(NewSpec(), before + [Increment] + rest, true)
  }

  /** The code is what its name promises, variables cleared at the start of every
      request, if and only if nothing was set before the first request: the first
      increment only initialises the counter and clears nothing. */
  lemma ClearedAtEveryRequestExactly<V(!new)>(before: seq<Op<V>>)
    requires IncrementFree(before)
    ensures AlwaysCleared(before) <==> SetFree(before)
  {
    NewRepresents<V>();
    if SetFree(before) {
      forall rest: seq<Op<V>>
        ensures Answers(NewThread(), before + [Increment] + rest)
             == SpecAnswers(NewSpec(), before + [Increment] + rest, true)
      {
        ClearedByAllButFirst(NewThread(), NewSpec(), before + [Increment] + rest);
        SplitAtFirst(before, rest);
        var s: Spec<V> := Spec(map[], true);
        SpecsAgreeOnceStarted(s, rest);
      }
    } else {
      var i :| 0 <= i < |before| && before[i].Set?;
      var get: seq<Op<V>> := [Get(before[i].name)];
      ClearedByAllButFirst(NewThread(), NewSpec(), before + [Increment] + get);
      SplitAtFirst(before, get);
      var kept := SpecAfter(NewSpec(), before, true).values;
      OneGet(kept, before[i].name, false);
      OneGet<V>(map[], before[i].name, true);
      var common := |SpecAnswers(NewSpec(), before, true)|;
      assert Answers(NewThread(), before + [Increment] + get)[common] == Some(kept[before[i].name]);
      assert SpecAnswers(NewSpec(), before + [Increment] + get, true)[common] == None;
    }
  }

  lemma OneGet<V>(values: map<Name, V>, name: Name, firstClears: bool)
    ensures SpecAnswers(Spec(values, true), [Get(name)], firstClears)
         == [if name in values then Some(values[name]) else None]
  {
  }

  lemma HeadIncrement<V>(s: Spec<V>, rest: seq<Op<V>>, firstClears: bool)
    ensures SpecAnswers(s, [Increment] + rest, firstClears)
         == SpecAnswers(SpecDo(s, Increment, firstClears), rest, firstClears)
  {
  }

  /** The two specifications part at the first increment only. */
  lemma SplitAtFirst<V>(before: seq<Op<V>>, rest: seq<Op<V>>)
    requires IncrementFree(before)
    ensures var values := SpecAfter(NewSpec(), before, true).values;
            && SpecAnswers(NewSpec(), before + [Increment] + rest, false)
               == SpecAnswers(NewSpec(), before, true) + SpecAnswers(Spec(values, true), rest, false)
            && SpecAnswers(NewSpec(), before + [Increment] + rest, true)
               == SpecAnswers(NewSpec(), before, true) + SpecAnswers(Spec(map[], true), rest, true)
            && (SetFree(before) ==> values == map[])
            && (forall i :: 0 <= i < |before| && before[i].Set? ==> before[i].name in values)
  {
    var s := NewSpec<V>();
    BeforeFirstIncrement(s, before);
    var tail := [Increment] + rest;
    assert before + [Increment] + rest == before + tail;
    SpecAnswersAppend(s, before, tail, false);
    SpecAnswersAppend(s, before, tail, true);
    HeadIncrement(SpecAfter(s, before, false), rest, false);
    HeadIncrement(SpecAfter(s, before, true), rest, true);
  }
}
