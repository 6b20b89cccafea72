/** Which functions `analyze` puts into the program (analysis/src/pipeline.rs:69-128): those it has are kept, with
  their names, and every address that disassembles gets exactly one new function. */
module ProgramGrowth {
  import opened Il
  import opened Pipeline

  /** Functions keep their place, start and name; new aliases go behind the old ones, and only to the first
    function at an address. */
  ghost predicate Extends(p: seq<Function>, p': seq<Function>) {
    && |p| <= |p'|
    && (forall k :: 0 <= k < |p| ==>
          p'[k].start == p[k].start && p'[k].name == p[k].name && p[k].aliases <= p'[k].aliases)
    && (forall j, k :: 0 <= j < k < |p| && p[j].start == p[k].start ==> p'[k].aliases == p[k].aliases)
  }

  lemma ExtendsTransitive(p: seq<Function>, q: seq<Function>, r: seq<Function>)
    requires Extends(p, q) && Extends(q, r)
    ensures Extends(p, r)
  {
    forall k | 0 <= k < |p| ensures r[k].start == p[k].start && r[k].name == p[k].name && p[k].aliases <= r[k].aliases {
      assert q[k].start == p[k].start;
    }
    forall j, k | 0 <= j < k < |p| && p[j].start == p[k].start ensures r[k].aliases == p[k].aliases {
      assert q[j].start == q[k].start;
    }
  }

  lemma AliasExtends(p: seq<Function>, a: Addr, name: string)
    ensures Extends(p, AddAlias(p, a, name)) && |AddAlias(p, a, name)| == |p|
  {
  }

  /** The address has been disassembled and its function inserted. */
  ghost predicate Found(s: State, a: Addr) {
    (a in s.attempts && s.attempts[a]) || InsertedAt(s, a)
  }

  /** The name of a Todo entry at the address, or the default name if there is none. */
  ghost predicate Asked(inp: Input, f: Function) {
    if IsRoot(inp, f.start) then exists i :: 0 <= i < |inp.todos| && inp.todos[i].entry == f.start &&
                                             NameOf(inp, inp.todos[i]) == f.name
    else f.name == inp.defaultName(f.start)
  }

  /** What the run has added so far: one function for every address that was found, under a name asked for. */
  ghost predicate Grown(inp: Input, s: State) {
    var n := |inp.base|;
    && Extends(inp.base, s.program)
    && (forall k :: n <= k < |s.program| ==> Found(s, s.program[k].start) && Asked(inp, s.program[k]))
    && (forall j, k :: n <= j < k < |s.program| ==> s.program[j].start != s.program[k].start)
    && (forall a :: Found(s, a) ==> exists k :: n <= k < |s.program| && s.program[k].start == a)
  }

  /** Steps that leave the set of found addresses and the starts and names of all functions alone. */
  lemma GrownKept(inp: Input, s: State, s': State)
    requires Grown(inp, s) && Extends(s.program, s'.program) && |s'.program| == |s.program|
    requires forall a :: Found(s', a) <==> Found(s, a)
    ensures Grown(inp, s')
  {
    hide Found;
    ExtendsTransitive(inp.base, s.program, s'.program);
    forall k | |inp.base| <= k < |s'.program| ensures Found(s', s'.program[k].start) && Asked(inp, s'.program[k]) {
      assert Asked(inp, s.program[k]) && s'.program[k].start == s.program[k].start;
    }
    forall a | Found(s', a) ensures exists k :: |inp.base| <= k < |s'.program| && s'.program[k].start == a {
      var k :| |inp.base| <= k < |s.program| && s.program[k].start == a;
      assert s'.program[k].start == a;
    }
  }

  lemma ExtendsSame(p: seq<Function>)
    ensures Extends(p, p)
  {
  }

  /** Steps of a task that neither inserts nor publishes leave what is inserted. */
  lemma InsertedKept(inp: Input, s: State, act: Action, a: Addr)
    requires Enabled(s, act) && !act.Insert? && !act.NextWave?
    ensures InsertedAt(Apply(inp, s, act), a) ==> InsertedAt(s, a)
    ensures InsertedAt(s, a) ==>
              InsertedAt(Apply(inp, s, act), a) || (act.PublishOk? && s.tasks[act.i].addr == a)
  {
    var s', i := Apply(inp, s, act), act.i;
    assert forall k :: 0 <= k < |s.tasks| && k != i ==> s'.tasks[k] == s.tasks[k];
    assert !s'.tasks[i].phase.Inserted? && s'.tasks[i].addr == s.tasks[i].addr;
    if InsertedAt(s', a) {
      var k :| 0 <= k < |s'.tasks| && s'.tasks[k].addr == a && s'.tasks[k].phase.Inserted?;
      assert s.tasks[k].addr == a && s.tasks[k].phase.Inserted?;
    }
    if InsertedAt(s, a) {
      var k :| 0 <= k < |s.tasks| && s.tasks[k].addr == a && s.tasks[k].phase.Inserted?;
      if k != i { assert s'.tasks[k].addr == a && s'.tasks[k].phase.Inserted?; }
    }
  }

  /** All steps but inserting a function find nothing new. */
  lemma FoundKept(inp: Input, s: State, act: Action, a: Addr)
    requires Inv(inp, s) && Enabled(s, act) && !act.Insert?
    ensures Found(Apply(inp, s, act), a) <==> Found(s, a)
  {
    hide Coverage, Names, Published, FailureCount, Waves, Results;
    if act.NextWave? {
      assert !InsertedAt(s, a) && !InsertedAt(Apply(inp, s, act), a);
    } else {
      InsertedKept(inp, s, act, a);
      if act.PublishOk? {
        assert InsertedAt(s, s.tasks[act.i].addr);
      } else if act.PublishErr? {
        HolderIsFirst(s, act.i);
      }
      hide InsertedAt, Locks;
    }
  }

  /** A task that holds its lock without having inserted anything: nobody has found the address. */
  lemma HolderIsFirst(s: State, i: nat)
    requires Locks(s) && i < |s.tasks| && (s.tasks[i].phase.Failed? || s.tasks[i].phase.Reading?)
    ensures !Found(s, s.tasks[i].addr)
  {
    assert Holds(s.tasks[i].phase);
    forall k | 0 <= k < |s.tasks| && s.tasks[k].addr == s.tasks[i].addr ensures !s.tasks[k].phase.Inserted? { }
  }

  /** One more function at an address nobody has found before. */
  lemma GrownMore(inp: Input, s: State, s': State, f: Function)
    requires Grown(inp, s) && s'.program == s.program + [f] && Asked(inp, f) && !Found(s, f.start)
    requires forall b :: Found(s', b) <==> Found(s, b) || b == f.start
    ensures Grown(inp, s')
  {
    hide Found, Asked, Extends;
    ExtendsMore(s.program, f);
    ExtendsTransitive(inp.base, s.program, s'.program);
    BaseFirst(inp.base, s.program);
    forall k | |inp.base| <= k < |s'.program| ensures Found(s', s'.program[k].start) && Asked(inp, s'.program[k]) {
      if k < |s.program| { assert s'.program[k] == s.program[k]; }
    }
    forall b | Found(s', b) ensures exists k :: |inp.base| <= k < |s'.program| && s'.program[k].start == b {
      if b == f.start {
        assert s'.program[|s.program|].start == b;
      } else {
        var k :| |inp.base| <= k < |s.program| && s.program[k].start == b;
        assert s'.program[k].start == b;
      }
    }
  }

  lemma BaseFirst(p: seq<Function>, p': seq<Function>)
    requires Extends(p, p')
    ensures |p| <= |p'|
  {
  }

  lemma InsertGrows(inp: Input, s: State, i: nat)
    requires Inv(inp, s) && Grown(inp, s) && Enabled(s, Insert(i))
    ensures Grown(inp, Apply(inp, s, Insert(i)))
  {
    hide Coverage, Names, Published, FailureCount, Results, Grown, Found, Asked;
    var s' := Apply(inp, s, Insert(i));
    HolderIsFirst(s, i);
    AskedByTask(inp, s, i);
    forall b ensures Found(s', b) <==> Found(s, b) || b == s.tasks[i].addr { InsertFinds(inp, s, i, b); }
    hide Locks, Waves;
    GrownMore(inp, s, s', Function(s.tasks[i].addr, s.tasks[i].name, []));
  }

  lemma ExtendsMore(p: seq<Function>, f: Function)
    ensures Extends(p, p + [f])
  {
  }

  lemma InsertFinds(inp: Input, s: State, i: nat, b: Addr)
    requires Enabled(s, Insert(i))
    ensures Found(Apply(inp, s, Insert(i)), b) <==> Found(s, b) || b == s.tasks[i].addr
  {
    var s' := Apply(inp, s, Insert(i));
    assert s'.tasks[i].phase.Inserted? && s'.tasks[i].addr == s.tasks[i].addr;
    if InsertedAt(s, b) {
      var k :| 0 <= k < |s.tasks| && s.tasks[k].addr == b && s.tasks[k].phase.Inserted?;
      assert s'.tasks[k].addr == b && s'.tasks[k].phase.Inserted?;
    }
  }

  lemma AskedByTask(inp: Input, s: State, i: nat)
    requires Locks(s) && Waves(inp, s) && Enabled(s, Insert(i))
    ensures Asked(inp, Function(s.tasks[i].addr, s.tasks[i].name, []))
  {
    assert Holds(s.tasks[i].phase);
    if s.first {
      assert inp.todos[i].entry == s.tasks[i].addr && NameOf(inp, inp.todos[i]) == s.tasks[i].name;
    }
  }

  lemma StepGrows(inp: Input, s: State, act: Action)
    requires Inv(inp, s) && Grown(inp, s) && Enabled(s, act)
    ensures Grown(inp, Apply(inp, s, act))
  {
    if act.Insert? {
      InsertGrows(inp, s, act.i);
    } else {
      var s' := Apply(inp, s, act);
      forall a ensures Found(s', a) <==> Found(s, a) { FoundKept(inp, s, act, a); }
      ExtendsSame(s.program);
      if act.Update? { AliasExtends(s.program, s.tasks[act.i].addr, s.tasks[act.i].name); }
      hide Inv, Found, Grown, Extends, AddAlias;
      GrownKept(inp, s, s');
    }
  }

  /** In every state of every interleaving the program has its old functions and one for every address found. */
  lemma {:induction false} ExecutionGrows(inp: Input, run: seq<State>)
    requires Execution(inp, run)
    ensures forall i :: 0 <= i < |run| ==> Grown(inp, run[i])
    decreases |run|
  {
    hide Inv;
    ExecutionInv(inp, run);
    ExtendsSame(inp.base);
    assert Grown(inp, Start(inp));
    if |run| > 1 {
      hide Grown, Apply, Enabled;
      var n := |run| - 1;
      ExecutionGrows(inp, run[..n]);
      assert run[..n][n - 1] == run[n - 1];
      assert Step(inp, run[n - 1], run[n - 1 + 1]);
      var act :| Enabled(run[n - 1], act) && run[n] == Apply(inp, run[n - 1], act);
      StepGrows(inp, run[n - 1], act);
      forall i | 0 <= i < |run| ensures Grown(inp, run[i]) {
        if i < n { assert run[..n][i] == run[i]; }
      }
    }
  }

  /** At the end: the old functions with their names, and behind them one function for each address that
    disassembles among those discovered, in some order and under a name asked for. */
  lemma AnalyzeDelivers(inp: Input, run: seq<State>, s: State)
    requires Execution(inp, run) && s == run[|run| - 1] && Final(s)
    ensures var n := |inp.base|;
            && Extends(inp.base, s.program)
            && (forall a :: (exists k :: n <= k < |s.program| && s.program[k].start == a) <==>
                            a in s.attempts && inp.oracle(a).Ok?)
            && (forall j, k :: n <= j < k < |s.program| ==> s.program[j].start != s.program[k].start)
            && (forall k :: n <= k < |s.program| ==> Asked(inp, s.program[k]))
  {
    hide Inv, Extends, Asked;
    ExecutionGrows(inp, run);
    AnalyzeCorrect(inp, run, s);
    forall a ensures Found(s, a) <==> a in s.attempts && inp.oracle(a).Ok? { assert !InsertedAt(s, a); }
    hide Found;
  }
}
