/** The disassembly worklist (analysis/src/pipeline.rs).

  `analyze` runs waves of parallel tasks over shared maps. It is modelled as a transition system
  whose steps are the atomic actions of the tasks, interleaved in any order: taking a key's lock,
  recording one call target, inserting the function under the program mutex, counting a failure,
  publishing the key. `pipeline` is the sequential version. Disassembly itself is an oracle. */
module Pipeline {
  import opened Il

  const TWO_64: int := 0x1_0000_0000_0000_0000
  type Addr = x: int | 0 <= x < TWO_64

  /** What `Function::new`/`with_uuid` and `collect_call_addresses` give for an address. */
  datatype Outcome = Fail | Ok(calls: seq<Addr>)

  /** A `CallTarget::Todo` with a constant address. */
  datatype Todo = Todo(entry: Addr, name: Option<string>)

  datatype Function = Function(start: Addr, name: string, aliases: seq<string>)

  /** `base` holds the functions the program already has, `defaultName` is the `func_0x...` default name. */
  datatype Input = Input(todos: seq<Todo>, base: seq<Function>, oracle: Addr -> Outcome, defaultName: Addr -> string)

  function NameOf(inp: Input, t: Todo): string {
    match t.name case Some(n) => n case None => inp.defaultName(t.entry)
  }

  // ----- What has to be found -----

  ghost predicate Closed(inp: Input, xs: set<Addr>) {
    forall a, c :: a in xs && inp.oracle(a).Ok? && c in inp.oracle(a).calls ==> c in xs
  }

  ghost predicate HasRoots(inp: Input, xs: set<Addr>) {
    forall i :: 0 <= i < |inp.todos| ==> inp.todos[i].entry in xs
  }

  /** `xs` is the least set with all Todo entries that is closed under the calls of functions that
    disassemble. */
  ghost predicate Discovered(inp: Input, xs: set<Addr>) {
    && HasRoots(inp, xs) && Closed(inp, xs)
    && forall ys :: HasRoots(inp, ys) && Closed(inp, ys) ==> xs <= ys
  }

  lemma DiscoveredUnique(inp: Input, xs: set<Addr>, ys: set<Addr>)
    requires Discovered(inp, xs) && Discovered(inp, ys)
    ensures xs == ys
  {
  }

  // ----- The parallel version -----

  /** Where a task is inside `attempts.upsert`. From `Reading` or `Failing` on it holds the lock of
    its key, until it publishes and is `Done`. */
  datatype Phase = Waiting | Reading(rest: seq<Addr>) | Inserted | Failing | Failed | Done

  datatype Task = Task(addr: Addr, name: string, phase: Phase)

  predicate Holds(p: Phase) {
    p.Reading? || p.Inserted? || p.Failing? || p.Failed?
  }

  datatype State = State(
    first: bool,
    tasks: seq<Task>,
    attempts: map<Addr, bool>,
    locked: set<Addr>,
    targets: set<Addr>,
    program: seq<Function>,
    failures: nat)

  function Start(inp: Input): State {
    State(true, seq(|inp.todos|, i requires 0 <= i < |inp.todos| =>
                      Task(inp.todos[i].entry, NameOf(inp, inp.todos[i]), Waiting)),
          map[], {}, {}, inp.base, 0)
  }

  /** The atomic actions; the number is the acting task. */
  datatype Action =
    | Begin(i: nat) | Note(i: nat) | Insert(i: nat) | PublishOk(i: nat)
    | Count(i: nat) | PublishErr(i: nat) | Update(i: nat)
    | NextWave(order: seq<Addr>)

  predicate AllDone(tasks: seq<Task>) {
    forall i :: 0 <= i < |tasks| ==> tasks[i].phase.Done?
  }

  predicate Distinct(order: seq<Addr>) {
    forall i, j :: 0 <= i < j < |order| ==> order[i] != order[j]
  }

  predicate Enabled(s: State, act: Action) {
    match act
    case Begin(i) => i < |s.tasks| && s.tasks[i].phase.Waiting? &&
                     s.tasks[i].addr !in s.attempts && s.tasks[i].addr !in s.locked
    case Note(i) => i < |s.tasks| && s.tasks[i].phase.Reading? && s.tasks[i].phase.rest != []
    case Insert(i) => i < |s.tasks| && s.tasks[i].phase == Reading([])
    case PublishOk(i) => i < |s.tasks| && s.tasks[i].phase.Inserted?
    case Count(i) => i < |s.tasks| && s.tasks[i].phase.Failing?
    case PublishErr(i) => i < |s.tasks| && s.tasks[i].phase.Failed?
    case Update(i) => i < |s.tasks| && s.tasks[i].phase.Waiting? && s.tasks[i].addr in s.attempts
    case NextWave(order) => AllDone(s.tasks) && s.targets != {} && Distinct(order) &&
                            s.targets == set a | a in order
  }

  /** `find_function_mut`: the first function that starts at `a`. */
  function FindFunction(program: seq<Function>, a: Addr): (r: Option<nat>)
    ensures r.Some? ==> r.value < |program| && program[r.value].start == a
    ensures r.Some? ==> forall k :: 0 <= k < r.value ==> program[k].start != a
    ensures r.None? ==> forall k :: 0 <= k < |program| ==> program[k].start != a
  {
    if program == [] then None
    else if program[0].start == a then Some(0)
    else match FindFunction(program[1..], a)
         case None => None
         case Some(k) => Some(k + 1)
  }

  function AddAlias(program: seq<Function>, a: Addr, name: string): seq<Function> {
    match FindFunction(program, a)
    case None => program
    case Some(k) => program[k := program[k].(aliases := program[k].aliases + [name])]
  }

  function SetPhase(s: State, i: nat, p: Phase): State
    requires i < |s.tasks|
  {
    s.(tasks := s.tasks[i := s.tasks[i].(phase := p)])
  }

  function Apply(inp: Input, s: State, act: Action): State
    requires Enabled(s, act)
  {
    match act
    case Begin(i) =>
      var a := s.tasks[i].addr;
      SetPhase(s, i, match inp.oracle(a) case Ok(calls) => Reading(calls) case Fail => Failing)
      .(locked := s.locked + {a})
    case Note(i) =>
      var rest := s.tasks[i].phase.rest;
      SetPhase(s, i, Reading(rest[1..])).(targets := s.targets + {rest[0]})
    case Insert(i) =>
      SetPhase(s, i, Inserted).(program := s.program + [Function(s.tasks[i].addr, s.tasks[i].name, [])])
    case PublishOk(i) =>
      SetPhase(s, i, Done)
      .(attempts := s.attempts[s.tasks[i].addr := true], locked := s.locked - {s.tasks[i].addr})
    case Count(i) => SetPhase(s, i, Failed).(failures := s.failures + 1)
    case PublishErr(i) =>
      SetPhase(s, i, Done)
      .(attempts := s.attempts[s.tasks[i].addr := false], locked := s.locked - {s.tasks[i].addr})
    case Update(i) =>
      var a := s.tasks[i].addr;
      SetPhase(s, i, Done)
      .(program := if s.first && s.attempts[a] then AddAlias(s.program, a, s.tasks[i].name) else s.program)
    case NextWave(order) =>
      s.(first := false, targets := {},
         tasks := seq(|order|, k requires 0 <= k < |order| => Task(order[k], inp.defaultName(order[k]), Waiting)))
  }

  ghost predicate Step(inp: Input, s: State, s': State) {
    exists act :: Enabled(s, act) && s' == Apply(inp, s, act)
  }

  predicate Final(s: State) {
    AllDone(s.tasks) && s.targets == {}
  }

  /** A finite execution from the start. */
  ghost predicate Execution(inp: Input, run: seq<State>) {
    && run != [] && run[0] == Start(inp)
    && forall i :: 0 <= i < |run| - 1 ==> Step(inp, run[i], run[i + 1])
  }

  // ----- Invariants of every interleaving -----

  /** Locks: exactly the keys of tasks inside their insert closure, each held by one task. */
  ghost predicate Locks(s: State) {
    && (forall i :: 0 <= i < |s.tasks| && Holds(s.tasks[i].phase) ==> s.tasks[i].addr in s.locked)
    && (forall a :: a in s.locked ==> exists i :: 0 <= i < |s.tasks| && s.tasks[i].addr == a && Holds(s.tasks[i].phase))
    && (forall i, j :: 0 <= i < j < |s.tasks| && Holds(s.tasks[i].phase) && Holds(s.tasks[j].phase) ==>
          s.tasks[i].addr != s.tasks[j].addr)
    && (forall a :: a in s.locked ==> a !in s.attempts)
  }

  /** Results: published outcomes and phases agree with the oracle, calls read so far are recorded. */
  ghost predicate Results(inp: Input, s: State) {
    && (forall a :: a in s.attempts ==> s.attempts[a] == inp.oracle(a).Ok?)
    && (forall i :: 0 <= i < |s.tasks| ==> TaskResult(inp, s, s.tasks[i]))
  }

  ghost predicate TaskResult(inp: Input, s: State, t: Task) {
    match t.phase
    case Waiting => true
    case Reading(rest) =>
      && inp.oracle(t.addr).Ok?
      && (forall c :: c in rest ==> c in inp.oracle(t.addr).calls)
      && (forall c :: c in inp.oracle(t.addr).calls ==> c in rest || c in s.targets)
    case Inserted =>
      && inp.oracle(t.addr).Ok?
      && forall c :: c in inp.oracle(t.addr).calls ==> c in s.targets
    case Failing => inp.oracle(t.addr).Fail?
    case Failed => inp.oracle(t.addr).Fail?
    case Done => t.addr in s.attempts
  }

  ghost function Addrs(tasks: seq<Task>): set<Addr> {
    set i | 0 <= i < |tasks| :: tasks[i].addr
  }

  lemma SetPhaseKeepsAddrs(s: State, i: nat, p: Phase)
    requires i < |s.tasks|
    ensures Addrs(SetPhase(s, i, p).tasks) == Addrs(s.tasks)
  {
    var tasks' := SetPhase(s, i, p).tasks;
    forall a ensures a in Addrs(tasks') <==> a in Addrs(s.tasks) {
      if a in Addrs(s.tasks) {
        var k :| 0 <= k < |s.tasks| && s.tasks[k].addr == a;
        assert tasks'[k].addr == a;
      }
    }
  }

  /** Everything the run has come across so far. */
  ghost function Known(s: State): set<Addr> {
    s.attempts.Keys + s.targets + Addrs(s.tasks)
  }

  /** Coverage: nothing found is lost, nothing foreign gets in. */
  ghost predicate Coverage(inp: Input, s: State) {
    && HasRoots(inp, Known(s))
    && (forall a, c :: a in s.attempts && inp.oracle(a).Ok? && c in inp.oracle(a).calls ==> c in Known(s))
    && (forall ys :: HasRoots(inp, ys) && Closed(inp, ys) ==> Known(s) <= ys)
  }

  ghost predicate HasFunction(s: State, a: Addr) {
    exists k :: 0 <= k < |s.program| && s.program[k].start == a
  }

  /** Publication: a key published as Ok, or about to be, has its function in the program. */
  ghost predicate Published(s: State) {
    && (forall a :: a in s.attempts && s.attempts[a] ==> HasFunction(s, a))
    && (forall i :: 0 <= i < |s.tasks| && s.tasks[i].phase.Inserted? ==> HasFunction(s, s.tasks[i].addr))
  }

  ghost function ErrKeys(s: State): set<Addr> {
    set a | a in s.attempts && !s.attempts[a]
  }

  /** Tasks whose failure is counted but not yet published. */
  ghost function FailedTasks(tasks: seq<Task>): nat {
    if tasks == [] then 0
    else (if tasks[0].phase.Failed? then 1 else 0) + FailedTasks(tasks[1..])
  }

  ghost predicate FailureCount(s: State) {
    s.failures == |ErrKeys(s)| + FailedTasks(s.tasks)
  }

  /** Steps that neither take nor release a lock. */
  lemma LocksKept(s: State, s': State, i: nat)
    requires Locks(s) && i < |s.tasks| && s'.locked == s.locked && s'.attempts == s.attempts
    requires exists p :: s'.tasks == SetPhase(s, i, p).tasks && (Holds(p) <==> Holds(s.tasks[i].phase))
    ensures Locks(s')
  {
    forall k | 0 <= k < |s.tasks|
      ensures s'.tasks[k].addr == s.tasks[k].addr && (Holds(s'.tasks[k].phase) <==> Holds(s.tasks[k].phase)) { }
    forall a | a in s'.locked
      ensures exists k :: 0 <= k < |s'.tasks| && s'.tasks[k].addr == a && Holds(s'.tasks[k].phase)
    {
      var k :| 0 <= k < |s.tasks| && s.tasks[k].addr == a && Holds(s.tasks[k].phase);
      assert s'.tasks[k].addr == a && Holds(s'.tasks[k].phase);
    }
  }

  lemma LocksTaken(s: State, s': State, i: nat, p: Phase)
    requires Locks(s) && i < |s.tasks| && !Holds(s.tasks[i].phase) && Holds(p)
    requires s.tasks[i].addr !in s.attempts && s.tasks[i].addr !in s.locked
    requires s'.tasks == SetPhase(s, i, p).tasks
    requires s'.locked == s.locked + {s.tasks[i].addr} && s'.attempts == s.attempts
    ensures Locks(s')
  {
    forall a | a in s'.locked
      ensures exists k :: 0 <= k < |s'.tasks| && s'.tasks[k].addr == a && Holds(s'.tasks[k].phase)
    {
      if a == s.tasks[i].addr {
        assert s'.tasks[i].addr == a && Holds(s'.tasks[i].phase);
      } else {
        var k :| 0 <= k < |s.tasks| && s.tasks[k].addr == a && Holds(s.tasks[k].phase);
        assert s'.tasks[k] == s.tasks[k];
      }
    }
  }

  lemma LocksReleased(s: State, s': State, i: nat, ok: bool)
    requires Locks(s) && i < |s.tasks| && Holds(s.tasks[i].phase)
    requires s'.tasks == SetPhase(s, i, Done).tasks
    requires s'.locked == s.locked - {s.tasks[i].addr} && s'.attempts == s.attempts[s.tasks[i].addr := ok]
    ensures Locks(s')
  {
    forall a | a in s'.locked
      ensures exists k :: 0 <= k < |s'.tasks| && s'.tasks[k].addr == a && Holds(s'.tasks[k].phase)
    {
      var k :| 0 <= k < |s.tasks| && s.tasks[k].addr == a && Holds(s.tasks[k].phase);
      assert s'.tasks[k] == s.tasks[k];
    }
  }

  lemma LocksStep(inp: Input, s: State, act: Action)
    requires Locks(s) && Enabled(s, act)
    ensures Locks(Apply(inp, s, act))
  {
    var s' := Apply(inp, s, act);
    if act.NextWave? {
      forall i | 0 <= i < |s.tasks| ensures !Holds(s.tasks[i].phase) { }
      assert s.locked == {};
    } else {
      var i := act.i;
      assert s'.tasks == SetPhase(s, i, s'.tasks[i].phase).tasks;
      if act.Begin? {
        LocksTaken(s, s', i, s'.tasks[i].phase);
      } else if act.PublishOk? || act.PublishErr? {
        LocksReleased(s, s', i, act.PublishOk?);
      } else {
        LocksKept(s, s', i);
      }
    }
  }

  lemma ResultsStep(inp: Input, s: State, act: Action)
    requires Results(inp, s) && Enabled(s, act)
    ensures Results(inp, Apply(inp, s, act))
  {
    var s' := Apply(inp, s, act);
    if !act.NextWave? {
      forall k | 0 <= k < |s'.tasks| ensures TaskResult(inp, s', s'.tasks[k]) {
        assert TaskResult(inp, s, s.tasks[k]);
        if act.Note? && k == act.i {
          var rest := s.tasks[k].phase.rest;
          assert rest == [rest[0]] + rest[1..];
        }
      }
    }
  }

  lemma CoverageStep(inp: Input, s: State, act: Action)
    requires Results(inp, s) && Coverage(inp, s) && Enabled(s, act)
    ensures Coverage(inp, Apply(inp, s, act))
  {
    var s' := Apply(inp, s, act);
    if act.NextWave? {
      WaveKeepsKnown(inp, s, act.order);
    } else {
      var i := act.i;
      SetPhaseKeepsAddrs(s, i, s'.tasks[i].phase);
      assert s'.tasks == SetPhase(s, i, s'.tasks[i].phase).tasks;
      assert s.tasks[i].addr in Addrs(s.tasks);
      assert TaskResult(inp, s, s.tasks[i]);
      if act.Note? {
        var c := s.tasks[i].phase.rest[0];
        assert c in inp.oracle(s.tasks[i].addr).calls;
        assert Known(s') == Known(s) + {c};
      } else {
        assert Known(s') == Known(s);
      }
    }
  }

  lemma WaveKeepsKnown(inp: Input, s: State, order: seq<Addr>)
    requires Results(inp, s) && Enabled(s, NextWave(order))
    ensures Known(Apply(inp, s, NextWave(order))) == Known(s)
  {
    var s' := Apply(inp, s, NextWave(order));
    assert Addrs(s'.tasks) == s.targets by {
      forall a ensures a in Addrs(s'.tasks) <==> a in s.targets {
        if a in s.targets {
          var k :| 0 <= k < |order| && order[k] == a;
          assert s'.tasks[k].addr == a;
        }
      }
    }
    assert Addrs(s.tasks) <= s.attempts.Keys by {
      forall i | 0 <= i < |s.tasks| ensures s.tasks[i].addr in s.attempts {
        assert TaskResult(inp, s, s.tasks[i]);
      }
    }
  }

  lemma PublishedStep(inp: Input, s: State, act: Action)
    requires Published(s) && Enabled(s, act)
    ensures Published(Apply(inp, s, act))
  {
    var s' := Apply(inp, s, act);
    forall a | HasFunction(s, a) ensures HasFunction(s', a) {
      var k :| 0 <= k < |s.program| && s.program[k].start == a;
      assert s'.program[k].start == a;
    }
    if act.Insert? {
      assert s'.program[|s.program|].start == s.tasks[act.i].addr;
    }
    if !act.NextWave? {
      forall k | 0 <= k < |s'.tasks| && s'.tasks[k].phase.Inserted? ensures HasFunction(s', s'.tasks[k].addr) {
        if k != act.i { assert s'.tasks[k] == s.tasks[k]; }
      }
    }
  }

  lemma {:induction false} FailedTasksUpdate(tasks: seq<Task>, i: nat, t: Task)
    requires i < |tasks|
    ensures FailedTasks(tasks[i := t]) ==
            FailedTasks(tasks) - (if tasks[i].phase.Failed? then 1 else 0) + (if t.phase.Failed? then 1 else 0)
  {
    if i > 0 {
      assert tasks[i := t][1..] == tasks[1..][i - 1 := t];
      FailedTasksUpdate(tasks[1..], i - 1, t);
    } else {
      assert tasks[0 := t][1..] == tasks[1..];
    }
  }

  lemma {:induction false} NoFailedTasks(tasks: seq<Task>)
    requires forall i :: 0 <= i < |tasks| ==> !tasks[i].phase.Failed?
    ensures FailedTasks(tasks) == 0
  {
    if tasks != [] { NoFailedTasks(tasks[1..]); }
  }

  /** Publishing moves a failure from the counted to the published ones. */
  lemma FailureStep(inp: Input, s: State, act: Action)
    requires Locks(s) && FailureCount(s) && Enabled(s, act)
    ensures FailureCount(Apply(inp, s, act))
  {
    if act.NextWave? {
      var s' := Apply(inp, s, act);
      NoFailedTasks(s.tasks);
      NoFailedTasks(s'.tasks);
      assert ErrKeys(s') == ErrKeys(s);
    } else {
      TaskFailureStep(inp, s, act);
    }
  }

  lemma TaskFailureStep(inp: Input, s: State, act: Action)
    requires Locks(s) && FailureCount(s) && Enabled(s, act) && !act.NextWave?
    ensures FailureCount(Apply(inp, s, act))
  {
    hide FailedTasks, ErrKeys, Locks;
    var s' := Apply(inp, s, act);
    FailedTasksUpdate(s.tasks, act.i, s'.tasks[act.i]);
    assert s'.tasks == s.tasks[act.i := s'.tasks[act.i]];
    ErrKeysStep(inp, s, act);
  }

  /** Publishing an error adds one key, nothing else changes the failed keys. */
  lemma ErrKeysStep(inp: Input, s: State, act: Action)
    requires Locks(s) && Enabled(s, act) && !act.NextWave?
    ensures |ErrKeys(Apply(inp, s, act))| == |ErrKeys(s)| + if act.PublishErr? then 1 else 0
  {
    hide ErrKeys, AddAlias;
    var s' := Apply(inp, s, act);
    if act.PublishErr? || act.PublishOk? {
      var a := s.tasks[act.i].addr;
      assert a in s.locked && a !in s.attempts;
      ErrKeyAdded(s, s', a, act.PublishOk?);
    } else {
      ErrKeysSame(s, s');
    }
  }

  lemma ErrKeyAdded(s: State, s': State, a: Addr, ok: bool)
    requires a !in s.attempts && s'.attempts == s.attempts[a := ok]
    ensures |ErrKeys(s')| == |ErrKeys(s)| + if ok then 0 else 1
  {
    assert ErrKeys(s') == if ok then ErrKeys(s) else ErrKeys(s) + {a};
  }

  lemma ErrKeysSame(s: State, s': State)
    requires s'.attempts == s.attempts
    ensures ErrKeys(s') == ErrKeys(s)
  {
  }

  // ----- Names -----

  /** Canonical names and aliases of the functions that start at `a`. */
  ghost function NamesAt(program: seq<Function>, a: Addr): multiset<string> {
    if program == [] then multiset{}
    else (if program[0].start == a then multiset{program[0].name} + multiset(program[0].aliases) else multiset{})
         + NamesAt(program[1..], a)
  }

  /** Names the Todo entries ask for at `a`. */
  ghost function RootNames(inp: Input, todos: seq<Todo>, a: Addr): multiset<string> {
    if todos == [] then multiset{}
    else (if todos[0].entry == a then multiset{NameOf(inp, todos[0])} else multiset{})
         + RootNames(inp, todos[1..], a)
  }

  ghost predicate IsRoot(inp: Input, a: Addr) {
    exists i :: 0 <= i < |inp.todos| && inp.todos[i].entry == a
  }

  predicate Contributes(t: Task) {
    t.phase.Inserted? || t.phase.Done?
  }

  /** Names the tasks of the current wave have already put at `a`. */
  ghost function Contributed(tasks: seq<Task>, a: Addr): multiset<string> {
    if tasks == [] then multiset{}
    else (if tasks[0].addr == a && Contributes(tasks[0]) then multiset{tasks[0].name} else multiset{})
         + Contributed(tasks[1..], a)
  }

  ghost predicate InsertedAt(s: State, a: Addr) {
    exists i :: 0 <= i < |s.tasks| && s.tasks[i].addr == a && s.tasks[i].phase.Inserted?
  }

  /** The names the run must have added at `a` by now. */
  ghost function Expected(inp: Input, s: State, a: Addr): multiset<string> {
    if inp.oracle(a).Fail? then multiset{}
    else if s.first then Contributed(s.tasks, a)
    else if IsRoot(inp, a) then RootNames(inp, inp.todos, a)
    else if a in s.attempts || InsertedAt(s, a) then multiset{inp.defaultName(a)}
    else multiset{}
  }

  ghost predicate Names(inp: Input, s: State) {
    forall a :: NamesAt(s.program, a) == NamesAt(inp.base, a) + Expected(inp, s, a)
  }

  /** The first wave works on the Todo entries, later ones on unnamed targets. */
  ghost predicate Waves(inp: Input, s: State) {
    && (s.first ==>
          && |s.tasks| == |inp.todos|
          && (forall i :: 0 <= i < |s.tasks| ==>
                s.tasks[i].addr == inp.todos[i].entry && s.tasks[i].name == NameOf(inp, inp.todos[i]))
          && (forall a :: a in s.attempts ==> IsRoot(inp, a)))
    && (!s.first ==>
          && (forall i :: 0 <= i < |s.tasks| ==> s.tasks[i].name == inp.defaultName(s.tasks[i].addr))
          && (forall i :: 0 <= i < |inp.todos| ==> inp.todos[i].entry in s.attempts))
  }

  lemma WavesStep(inp: Input, s: State, act: Action)
    requires Waves(inp, s) && Results(inp, s) && Enabled(s, act)
    ensures Waves(inp, Apply(inp, s, act))
  {
    if act.NextWave? {
      if s.first {
        forall i | 0 <= i < |inp.todos| ensures inp.todos[i].entry in s.attempts {
          assert TaskResult(inp, s, s.tasks[i]);
        }
      }
    } else if s.first {
      assert inp.todos[act.i].entry == s.tasks[act.i].addr;
    }
  }

  lemma {:induction false} NamesAtAppend(program: seq<Function>, f: Function, a: Addr)
    ensures NamesAt(program + [f], a) ==
            NamesAt(program, a) + if f.start == a then multiset{f.name} + multiset(f.aliases) else multiset{}
  {
    if program == [] {
      assert program + [f] == [f];
      assert [f][1..] == [];
    } else {
      assert (program + [f])[1..] == program[1..] + [f];
      NamesAtAppend(program[1..], f, a);
    }
  }

  /** An alias for a known address adds exactly its name, there and nowhere else. */
  lemma {:induction false} NamesAtAlias(program: seq<Function>, a: Addr, name: string, b: Addr)
    requires FindFunction(program, a).Some?
    ensures NamesAt(AddAlias(program, a, name), b) ==
            NamesAt(program, b) + if a == b then multiset{name} else multiset{}
  {
    var f := program[0];
    if f.start == a {
      AliasAtHead(program, a, name, b);
    } else {
      NamesAtAlias(program[1..], a, name, b);
      AliasBehind(program, a, name);
      NamesAtCons(f, AddAlias(program[1..], a, name), b);
      NamesAtCons(f, program[1..], b);
      assert program == [f] + program[1..];
    }
  }

  lemma NamesAtCons(f: Function, rest: seq<Function>, b: Addr)
    ensures NamesAt([f] + rest, b) ==
            (if f.start == b then multiset{f.name} + multiset(f.aliases) else multiset{}) + NamesAt(rest, b)
  {
    assert ([f] + rest)[1..] == rest;
  }

  lemma AliasBehind(program: seq<Function>, a: Addr, name: string)
    requires program != [] && program[0].start != a && FindFunction(program, a).Some?
    ensures AddAlias(program, a, name) == [program[0]] + AddAlias(program[1..], a, name)
  {
    var k := FindFunction(program[1..], a).value;
    assert FindFunction(program, a) == Some(k + 1);
    assert program == [program[0]] + program[1..];
  }

  lemma AliasAtHead(program: seq<Function>, a: Addr, name: string, b: Addr)
    requires program != [] && program[0].start == a
    ensures NamesAt(AddAlias(program, a, name), b) ==
            NamesAt(program, b) + if a == b then multiset{name} else multiset{}
  {
    var f, rest := program[0], program[1..];
    var f' := f.(aliases := f.aliases + [name]);
    assert AddAlias(program, a, name) == [f'] + rest;
    assert program == [f] + rest;
    assert multiset(f.aliases + [name]) == multiset(f.aliases) + multiset{name};
    hide NamesAt, AddAlias;
    NamesAtCons(f, rest, b);
    NamesAtCons(f', rest, b);
  }

  lemma {:induction false} ContributedUpdate(tasks: seq<Task>, i: nat, p: Phase, a: Addr)
    requires i < |tasks| && (Contributes(tasks[i]) ==> p.Inserted? || p.Done?)
    ensures Contributed(tasks[i := tasks[i].(phase := p)], a) ==
            Contributed(tasks, a) +
            if tasks[i].addr == a && !Contributes(tasks[i]) && (p.Inserted? || p.Done?)
            then multiset{tasks[i].name} else multiset{}
  {
    var t := tasks[i].(phase := p);
    if i > 0 {
      assert tasks[i := t][1..] == tasks[1..][i - 1 := t];
      ContributedUpdate(tasks[1..], i - 1, p, a);
    } else {
      assert tasks[0 := t][1..] == tasks[1..];
    }
  }

  lemma {:induction false} AllContributed(inp: Input, tasks: seq<Task>, todos: seq<Todo>, a: Addr)
    requires |tasks| == |todos| && AllDone(tasks)
    requires forall i :: 0 <= i < |tasks| ==> tasks[i].addr == todos[i].entry && tasks[i].name == NameOf(inp, todos[i])
    ensures Contributed(tasks, a) == RootNames(inp, todos, a)
  {
    if tasks != [] { AllContributed(inp, tasks[1..], todos[1..], a); }
  }

  lemma {:induction false} NoRootNames(inp: Input, todos: seq<Todo>, a: Addr)
    requires forall i :: 0 <= i < |todos| ==> todos[i].entry != a
    ensures RootNames(inp, todos, a) == multiset{}
  {
    if todos != [] { NoRootNames(inp, todos[1..], a); }
  }

  /** What a step adds to the program's names at `b`. */
  ghost function Added(s: State, act: Action, b: Addr): multiset<string>
    requires Enabled(s, act)
  {
    if act.Insert? && s.tasks[act.i].addr == b then multiset{s.tasks[act.i].name}
    else if act.Update? && s.first && s.tasks[act.i].addr == b && s.attempts[b] then multiset{s.tasks[act.i].name}
    else multiset{}
  }

  lemma ProgramStep(inp: Input, s: State, act: Action, b: Addr)
    requires Published(s) && Enabled(s, act)
    ensures NamesAt(Apply(inp, s, act).program, b) == NamesAt(s.program, b) + Added(s, act, b)
  {
    if act.Insert? {
      NamesAtAppend(s.program, Function(s.tasks[act.i].addr, s.tasks[act.i].name, []), b);
    } else if act.Update? && s.first && s.attempts[s.tasks[act.i].addr] {
      assert HasFunction(s, s.tasks[act.i].addr);
      NamesAtAlias(s.program, s.tasks[act.i].addr, s.tasks[act.i].name, b);
    }
  }

  /** The facts about the acting task that the invariants give. */
  ghost predicate Acting(inp: Input, s: State, i: nat) {
    && i < |s.tasks|
    && TaskResult(inp, s, s.tasks[i])
    && (s.tasks[i].addr in s.attempts ==> s.attempts[s.tasks[i].addr] == inp.oracle(s.tasks[i].addr).Ok?)
    && (Holds(s.tasks[i].phase) ==>
          s.tasks[i].addr !in s.attempts && (InsertedAt(s, s.tasks[i].addr) <==> s.tasks[i].phase.Inserted?))
  }

  lemma ActingTask(inp: Input, s: State, i: nat)
    requires Locks(s) && Results(inp, s) && i < |s.tasks|
    ensures Acting(inp, s, i)
  {
    if Holds(s.tasks[i].phase) { assert s.tasks[i].addr in s.locked; }
  }

  lemma ExpectedFirst(inp: Input, s: State, act: Action, b: Addr)
    requires s.first && Enabled(s, act) && !act.NextWave? && Acting(inp, s, act.i)
    ensures Expected(inp, Apply(inp, s, act), b) == Expected(inp, s, b) + Added(s, act, b)
  {
    var s', i := Apply(inp, s, act), act.i;
    var p := s'.tasks[i].phase;
    if inp.oracle(b).Fail? {
      assert Added(s, act, b) == multiset{};
    } else {
      assert s'.tasks == s.tasks[i := s.tasks[i].(phase := p)];
      FirstContribution(inp, s, act, b);
      ContributedUpdate(s.tasks, i, p, b);
    }
  }

  /** A task of the first wave adds its name when it starts to contribute. */
  lemma FirstContribution(inp: Input, s: State, act: Action, b: Addr)
    requires s.first && Enabled(s, act) && !act.NextWave? && Acting(inp, s, act.i) && inp.oracle(b).Ok?
    ensures var t, t' := s.tasks[act.i], Apply(inp, s, act).tasks[act.i];
            && (Contributes(t) ==> Contributes(t'))
            && Added(s, act, b) ==
               if t.addr == b && !Contributes(t) && Contributes(t') then multiset{t.name} else multiset{}
  {
  }

  lemma InsertedAtStep(inp: Input, s: State, act: Action, b: Addr)
    requires Enabled(s, act) && !act.NextWave? && Acting(inp, s, act.i)
    ensures var a := s.tasks[act.i].addr;
            InsertedAt(Apply(inp, s, act), b) ==> InsertedAt(s, b) || (act.Insert? && a == b)
    ensures var a := s.tasks[act.i].addr;
            InsertedAt(s, b) ==> InsertedAt(Apply(inp, s, act), b) || (act.PublishOk? && a == b)
    ensures act.Insert? ==> InsertedAt(Apply(inp, s, act), s.tasks[act.i].addr)
  {
    var s', i := Apply(inp, s, act), act.i;
    assert s'.tasks == s.tasks[i := s.tasks[i].(phase := s'.tasks[i].phase)];
    if InsertedAt(s, b) {
      var k :| 0 <= k < |s.tasks| && s.tasks[k].addr == b && s.tasks[k].phase.Inserted?;
      if k != i { assert s'.tasks[k] == s.tasks[k]; }
    }
    if InsertedAt(s', b) {
      var k :| 0 <= k < |s'.tasks| && s'.tasks[k].addr == b && s'.tasks[k].phase.Inserted?;
      if k != i { assert s'.tasks[k] == s.tasks[k]; }
    }
    if act.Insert? { assert s'.tasks[i].addr == s.tasks[i].addr && s'.tasks[i].phase.Inserted?; }
  }

  lemma ExpectedLater(inp: Input, s: State, act: Action, b: Addr)
    requires !s.first && Enabled(s, act) && !act.NextWave? && Acting(inp, s, act.i)
    requires var t := s.tasks[act.i]; t.name == inp.defaultName(t.addr) && (Holds(t.phase) ==> !IsRoot(inp, t.addr))
    ensures Expected(inp, Apply(inp, s, act), b) == Expected(inp, s, b) + Added(s, act, b)
  {
    InsertedAtStep(inp, s, act, b);
  }

  lemma ExpectedWave(inp: Input, s: State, act: Action, b: Addr)
    requires Waves(inp, s) && Results(inp, s) && Enabled(s, act) && act.NextWave?
    ensures Expected(inp, Apply(inp, s, act), b) == Expected(inp, s, b)
  {
    hide RootNames, Contributed, AddAlias, SetPhase;
    if s.first {
      AllContributed(inp, s.tasks, inp.todos, b);
      if !IsRoot(inp, b) { NoRootNames(inp, inp.todos, b); }
    }
  }

  lemma NamesStep(inp: Input, s: State, act: Action)
    requires Names(inp, s) && Waves(inp, s) && Locks(s) && Published(s) && Results(inp, s) && Enabled(s, act)
    ensures Names(inp, Apply(inp, s, act))
  {
    forall b
      ensures NamesAt(Apply(inp, s, act).program, b) == NamesAt(inp.base, b) + Expected(inp, Apply(inp, s, act), b)
    {
      ProgramStep(inp, s, act, b);
      if act.NextWave? {
        ExpectedWave(inp, s, act, b);
      } else {
        ActingTask(inp, s, act.i);
        if s.first { ExpectedFirst(inp, s, act, b); } else { ExpectedLater(inp, s, act, b); }
      }
    }
  }

  // ----- Every reachable state -----

  ghost predicate Inv(inp: Input, s: State) {
    && Locks(s) && Results(inp, s) && Coverage(inp, s) && Published(s) && FailureCount(s)
    && Waves(inp, s) && Names(inp, s)
  }

  lemma StartInv(inp: Input)
    ensures Inv(inp, Start(inp))
  {
    hide Coverage, Names;
    var s := Start(inp);
    StartCovers(inp);
    StartNames(inp);
    NoFailedTasks(s.tasks);
    assert ErrKeys(s) == {};
  }

  lemma StartCovers(inp: Input)
    ensures Coverage(inp, Start(inp))
  {
    var s := Start(inp);
    assert HasRoots(inp, Known(s)) by {
      forall i | 0 <= i < |inp.todos| ensures inp.todos[i].entry in Known(s) {
        assert s.tasks[i].addr == inp.todos[i].entry;
      }
    }
  }

  lemma StartNames(inp: Input)
    ensures Names(inp, Start(inp))
  {
    hide NamesAt;
    var s := Start(inp);
    forall a ensures NamesAt(s.program, a) == NamesAt(inp.base, a) + Expected(inp, s, a) {
      NothingContributed(s.tasks, a);
    }
  }

  lemma {:induction false} NothingContributed(tasks: seq<Task>, a: Addr)
    requires forall i :: 0 <= i < |tasks| ==> !Contributes(tasks[i])
    ensures Contributed(tasks, a) == multiset{}
  {
    if tasks != [] { NothingContributed(tasks[1..], a); }
  }

  lemma ActionInv(inp: Input, s: State, act: Action)
    requires Inv(inp, s) && Enabled(s, act)
    ensures Inv(inp, Apply(inp, s, act))
  {
    LocksStep(inp, s, act);
    ResultsStep(inp, s, act);
    CoverageStep(inp, s, act);
    PublishedStep(inp, s, act);
    FailureStep(inp, s, act);
    WavesStep(inp, s, act);
    NamesStep(inp, s, act);
  }

  lemma StepInv(inp: Input, s: State, s': State)
    requires Inv(inp, s) && Step(inp, s, s')
    ensures Inv(inp, s')
  {
    var act :| Enabled(s, act) && s' == Apply(inp, s, act);
    ActionInv(inp, s, act);
  }

  /** The invariants hold in every state of every interleaving. */
  lemma {:induction false} ExecutionInv(inp: Input, run: seq<State>)
    requires Execution(inp, run)
    ensures forall i :: 0 <= i < |run| ==> Inv(inp, run[i])
    decreases |run|
  {
    StartInv(inp);
    if |run| > 1 {
      var n := |run| - 1;
      ExecutionInv(inp, run[..n]);
      assert run[..n][n - 1] == run[n - 1];
      assert Step(inp, run[n - 1], run[n - 1 + 1]);
      StepInv(inp, run[n - 1], run[n]);
      forall i | 0 <= i < |run| ensures Inv(inp, run[i]) {
        if i < n { assert run[..n][i] == run[i]; }
      }
    }
  }

  /** The alias branch unwraps the result of a lookup; in no reachable state can that fail. */
  lemma AliasLookupSucceeds(inp: Input, run: seq<State>, i: nat)
    requires Execution(inp, run)
    requires var s := run[|run| - 1];
             Enabled(s, Update(i)) && s.first && s.attempts[s.tasks[i].addr]
    ensures var s := run[|run| - 1]; FindFunction(s.program, s.tasks[i].addr).Some?
  {
    ExecutionInv(inp, run);
    var s := run[|run| - 1];
    assert Inv(inp, s) && HasFunction(s, s.tasks[i].addr);
  }

  // ----- Termination -----

  predicate IsAddr(a: int) {
    0 <= a < TWO_64
  }

  ghost function AllAddrs(): set<Addr> {
    set a: Addr | 0 <= a < TWO_64 && IsAddr(a)
  }

  /** Addresses nobody has taken up. */
  ghost function Free(s: State): set<Addr> {
    AllAddrs() - s.attempts.Keys - s.locked
  }

  /** Whether this wave has taken up something new, and may thus lead to another wave. */
  ghost function Fresh(s: State): nat {
    if s.targets != {} || s.locked != {} then 1 else 0
  }

  function Weight(p: Phase): nat {
    match p
    case Done => 0
    case Waiting => 1
    case Inserted => 1
    case Failed => 1
    case Failing => 2
    case Reading(rest) => |rest| + 2
  }

  ghost function Work(tasks: seq<Task>): nat {
    if tasks == [] then 0 else Weight(tasks[0].phase) + Work(tasks[1..])
  }

  lemma {:induction false} WorkUpdate(tasks: seq<Task>, i: nat, t: Task)
    requires i < |tasks|
    ensures Work(tasks[i := t]) == Work(tasks) - Weight(tasks[i].phase) + Weight(t.phase)
  {
    if i > 0 {
      assert tasks[i := t][1..] == tasks[1..][i - 1 := t];
      WorkUpdate(tasks[1..], i - 1, t);
    } else {
      assert tasks[0 := t][1..] == tasks[1..];
    }
  }

  /** The lexicographic measure (|Free|, Fresh, Work) goes down. */
  ghost predicate Lower(s': State, s: State) {
    || |Free(s')| < |Free(s)|
    || (|Free(s')| == |Free(s)| && Fresh(s') < Fresh(s))
    || (|Free(s')| == |Free(s)| && Fresh(s') == Fresh(s) && Work(s'.tasks) < Work(s.tasks))
  }

  lemma BeginLowers(inp: Input, s: State, act: Action)
    requires Enabled(s, act) && act.Begin?
    ensures Lower(Apply(inp, s, act), s)
  {
    var s', a := Apply(inp, s, act), s.tasks[act.i].addr;
    assert IsAddr(a) && a in Free(s);
    assert Free(s') == Free(s) - {a};
  }

  lemma WaveLowers(inp: Input, s: State, act: Action)
    requires Locks(s) && Enabled(s, act) && act.NextWave?
    ensures Lower(Apply(inp, s, act), s)
  {
    forall i | 0 <= i < |s.tasks| ensures !Holds(s.tasks[i].phase) { }
    assert s.locked == {};
    assert Free(Apply(inp, s, act)) == Free(s);
  }

  lemma WorkLowers(inp: Input, s: State, act: Action)
    requires Locks(s) && Enabled(s, act) && !act.Begin? && !act.NextWave?
    ensures Lower(Apply(inp, s, act), s)
  {
    var s', i := Apply(inp, s, act), act.i;
    assert s'.tasks == s.tasks[i := s'.tasks[i]];
    WorkUpdate(s.tasks, i, s'.tasks[i]);
    PhaseLowers(inp, s, act);
    NothingTakenUp(inp, s, act);
  }

  lemma PhaseLowers(inp: Input, s: State, act: Action)
    requires Enabled(s, act) && !act.Begin? && !act.NextWave?
    ensures Weight(Apply(inp, s, act).tasks[act.i].phase) < Weight(s.tasks[act.i].phase)
  {
  }

  lemma NothingTakenUp(inp: Input, s: State, act: Action)
    requires Locks(s) && Enabled(s, act) && !act.Begin? && !act.NextWave?
    ensures Free(Apply(inp, s, act)) == Free(s) && Fresh(Apply(inp, s, act)) <= Fresh(s)
  {
    var s', a := Apply(inp, s, act), s.tasks[act.i].addr;
    if Holds(s.tasks[act.i].phase) { assert a in s.locked; }
    assert s'.attempts.Keys + s'.locked == s.attempts.Keys + s.locked;
    assert Free(s) == AllAddrs() - (s.attempts.Keys + s.locked);
    assert Free(s') == AllAddrs() - (s'.attempts.Keys + s'.locked);
  }

  lemma StepLowers(inp: Input, s: State, s': State)
    requires Inv(inp, s) && Step(inp, s, s')
    ensures Inv(inp, s') && Lower(s', s)
  {
    var act :| Enabled(s, act) && s' == Apply(inp, s, act);
    ActionInv(inp, s, act);
    if act.Begin? {
      BeginLowers(inp, s, act);
    } else if act.NextWave? {
      WaveLowers(inp, s, act);
    } else {
      WorkLowers(inp, s, act);
    }
  }

  ghost function Measure(s: State): (nat, nat, nat) {
    (|Free(s)|, Fresh(s), Work(s.tasks))
  }

  ghost predicate Lex(x: (nat, nat, nat), y: (nat, nat, nat)) {
    x.0 < y.0 || (x.0 == y.0 && (x.1 < y.1 || (x.1 == y.1 && x.2 < y.2)))
  }

  /** There is no infinite lexicographic descent. */
  lemma {:induction false} DescentStops(m: nat -> (nat, nat, nat), i: nat) returns (k: nat)
    ensures !Lex(m(k + 1), m(k))
    decreases m(i).0, m(i).1, m(i).2
  {
    if Lex(m(i + 1), m(i)) { k := DescentStops(m, i + 1); } else { k := i; }
  }

  lemma {:induction false} EndlessInv(inp: Input, run: nat -> State, n: nat)
    requires run(0) == Start(inp) && forall k: nat :: Step(inp, run(k), run(k + 1))
    ensures Inv(inp, run(n))
  {
    hide Inv, Step, Start;
    if n == 0 {
      StartInv(inp);
    } else {
      EndlessInv(inp, run, n - 1);
      assert Step(inp, run(n - 1), run(n - 1 + 1));
      StepInv(inp, run(n - 1), run(n));
    }
  }

  lemma StepLowersMeasure(inp: Input, s: State, s': State)
    requires Inv(inp, s) && Step(inp, s, s')
    ensures Lex(Measure(s'), Measure(s))
  {
    StepLowers(inp, s, s');
  }

  /** No interleaving goes on for ever. */
  lemma AnalyzeTerminates(inp: Input, run: nat -> State)
    requires run(0) == Start(inp)
    ensures exists k: nat :: !Step(inp, run(k), run(k + 1))
  {
    hide Inv, Step, Measure, Start;
    if forall k: nat :: Step(inp, run(k), run(k + 1)) {
      var k := DescentStops((n: nat) => Measure(run(n)), 0);
      EndlessInv(inp, run, k);
      StepLowersMeasure(inp, run(k), run(k + 1));
    }
  }

  lemma {:induction false} Arrange(xs: set<Addr>) returns (order: seq<Addr>)
    ensures Distinct(order) && xs == set a | a in order
  {
    if xs == {} {
      order := [];
    } else {
      var a :| a in xs;
      var rest := Arrange(xs - {a});
      assert a !in rest;
      order := [a] + rest;
      forall b ensures b in order <==> b in xs { assert b in rest <==> b in xs - {a}; }
    }
  }

  /** No interleaving gets stuck before it is finished. */
  lemma NoDeadlock(inp: Input, s: State) returns (act: Action)
    requires Inv(inp, s) && !Final(s)
    ensures Enabled(s, act)
  {
    if AllDone(s.tasks) {
      var order := Arrange(s.targets);
      act := NextWave(order);
    } else {
      var i :| 0 <= i < |s.tasks| && !s.tasks[i].phase.Done?;
      var a := s.tasks[i].addr;
      if Holds(s.tasks[i].phase) {
        act := Next(s, i);
      } else if a in s.attempts {
        act := Update(i);
      } else if a in s.locked {
        var k :| 0 <= k < |s.tasks| && s.tasks[k].addr == a && Holds(s.tasks[k].phase);
        act := Next(s, k);
      } else {
        act := Begin(i);
      }
    }
  }

  /** What a task inside its closure does next. */
  function Next(s: State, i: nat): (act: Action)
    requires i < |s.tasks| && Holds(s.tasks[i].phase)
    ensures Enabled(s, act)
  {
    match s.tasks[i].phase
    case Reading(rest) => if rest == [] then Insert(i) else Note(i)
    case Inserted => PublishOk(i)
    case Failing => Count(i)
    case Failed => PublishErr(i)
  }

  // ----- The result -----

  /** What `analyze` delivers: the discovered addresses, each with the oracle's verdict, the exact
    number of failures, and for every address the names it was asked to carry. */
  ghost predicate Analyzed(inp: Input, s: State) {
    && Discovered(inp, s.attempts.Keys)
    && (forall a :: a in s.attempts ==> s.attempts[a] == inp.oracle(a).Ok?)
    && s.failures == |ErrKeys(s)|
    && (forall a :: NamesDelivered(inp, s, a))
  }

  /** At a function that was found: all names of its Todo entries, or else the default name, next to
    what the program had before. Nothing new anywhere else. */
  ghost predicate NamesDelivered(inp: Input, s: State, a: Addr) {
    NamesAt(s.program, a) == NamesAt(inp.base, a) +
      if !(a in s.attempts && s.attempts[a]) then multiset{}
      else if IsRoot(inp, a) then RootNames(inp, inp.todos, a)
      else multiset{inp.defaultName(a)}
  }

  lemma FinalDiscovers(inp: Input, s: State)
    requires Coverage(inp, s) && Results(inp, s) && Final(s)
    ensures Discovered(inp, s.attempts.Keys)
  {
    assert Addrs(s.tasks) <= s.attempts.Keys by {
      forall i | 0 <= i < |s.tasks| ensures s.tasks[i].addr in s.attempts { assert TaskResult(inp, s, s.tasks[i]); }
    }
    assert Known(s) == s.attempts.Keys;
  }

  lemma FinalNames(inp: Input, s: State, a: Addr)
    requires Results(inp, s) && Waves(inp, s) && Names(inp, s) && Final(s) && HasRoots(inp, s.attempts.Keys)
    ensures NamesDelivered(inp, s, a)
  {
    assert !InsertedAt(s, a);
    if s.first {
      AllContributed(inp, s.tasks, inp.todos, a);
    }
    if IsRoot(inp, a) { assert a in s.attempts; }
    if !IsRoot(inp, a) { NoRootNames(inp, inp.todos, a); }
  }

  lemma FinalAnalyzed(inp: Input, s: State)
    requires Results(inp, s) && Coverage(inp, s) && FailureCount(s) && Waves(inp, s) && Names(inp, s) && Final(s)
    ensures Analyzed(inp, s)
  {
    hide Coverage, Waves, Names, ErrKeys, NamesDelivered;
    FinalDiscovers(inp, s);
    NoFailedTasks(s.tasks);
    forall a ensures NamesDelivered(inp, s, a) { FinalNames(inp, s, a); }
  }

  /** Every interleaving that has come to its end has done exactly the required work. */
  lemma AnalyzeCorrect(inp: Input, run: seq<State>, s: State)
    requires Execution(inp, run) && s == run[|run| - 1] && Final(s)
    ensures Analyzed(inp, s)
  {
    ExecutionInv(inp, run);
    assert Inv(inp, s);
    FinalAnalyzed(inp, s);
  }
}
