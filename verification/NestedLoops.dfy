/** A loop around a loop, under the semantics of `il::execute`. If the inner loop increments the counter the
  outer head reads, the analysis ends below the least fixpoint; if the latch behind it does, it does not. */
module NestedLoops {
  import opened Bits
  import opened Il
  import opened KsetDomain
  import opened Interpreter
  import opened Nested
  import Rreil

  function V(k: nat): Var { Var("x", k) }

  function Operand(k: nat): Rvalue<string> { Variable("x", Some(k), 0, 8) }

  const Zero := Const(0, 8)
  const One := Const(1, 8)

  /** x0 = 0, in front of the loops. */
  const Entry: Stmt := Statement(Target("x", Some(0), 8), Unary(Move, Constant(Zero)))

  /** x1 = phi(x0, x3), the head of the outer loop. */
  const Head: Stmt := Statement(Target("x", Some(1), 8), Phi([Operand(0), Operand(3)]))

  /** x2 = phi(x1, x3) and x3 = x2 + 1, the inner loop. */
  const Join2: Stmt := Statement(Target("x", Some(2), 8), Phi([Operand(1), Operand(3)]))
  const Increment: Stmt := Statement(Target("x", Some(3), 8), Binary(Add, Operand(2), Constant(One)))

  const Ctx := Context(Semantics(Rreil.Execute2, Rreil.Execute1), map["x" := 8, "y" := 8], map[])
  const Program := [Entry, Head, Join2, Increment]

  /** Edges 0-1, 1-2, 2-2 and 2-1: the weak topological order is `Top`. */
  const Cfg: Graph := map[0 := [Entry], 1 := [Head], 2 := [Join2, Increment]]
  const Inner := Component([Element(2)])
  const Outer := Component([Element(1), Inner])
  const Top := Component([Element(0), Outer])

  // ----- The program -----

  lemma Vertices(v: nat)
    ensures Contains(Inner, v) <==> v == 2
    ensures Contains(Outer, v) <==> v == 1 || v == 2
    ensures Contains(Top, v) <==> v <= 2
  {
    assert Inner.items[0] == Element(2);
    assert Outer.items[0] == Element(1) && Outer.items[1] == Inner;
    assert Top.items[0] == Element(0) && Top.items[1] == Outer;
  }

  lemma Blocks(v: nat, s: Stmt)
    ensures s in Block(Cfg, v) <==>
            (v == 0 && s == Entry) || (v == 1 && s == Head) || (v == 2 && (s == Join2 || s == Increment))
  {
  }

  lemma ProgramIsSsa()
    ensures Ssa(Ctx, Program) && Good(Ctx, Program, map[])
    ensures WellFormed(Ctx, Entry) && WellFormed(Ctx, Head) && WellFormed(Ctx, Join2) && WellFormed(Ctx, Increment)
  {
    assert Operands(Entry.op) == [Constant(Zero)] && Operands(Head.op) == [Operand(0), Operand(3)];
    assert Operands(Join2.op) == [Operand(1), Operand(3)] && Operands(Increment.op) == [Operand(2), Constant(One)];
    assert Ssa(Ctx, Program);
    EmptyGood(Ctx, Program);
  }

  lemma InProgram()
    ensures Entry in Program && Head in Program && Join2 in Program && Increment in Program
  {
    assert Program[0] == Entry && Program[1] == Head && Program[2] == Join2 && Program[3] == Increment;
  }

  lemma ExampleWithin(o: Ordering)
    ensures Within(Ctx, Cfg, o, Program)
  {
    hide Contains, Block, WellFormed;
    forall v, s | s in Block(Cfg, v) ensures WellFormed(Ctx, s) && s in Program { BlockStatement(v, s); }
  }

  lemma ExampleComplete()
    ensures Complete(Ctx, Cfg, Program, Top) && Analysable(Ctx, Cfg, Program, Outer)
  {
    hide Ssa, Within, Contains, Block;
    ProgramIsSsa();
    ExampleWithin(Top);
    ExampleWithin(Outer);
    Place(0, 0);
    Place(1, 1);
    Place(2, 2);
    Place(3, 2);
  }

  lemma BlockStatement(v: nat, s: Stmt)
    requires s in Block(Cfg, v)
    ensures WellFormed(Ctx, s) && s in Program
  {
    hide Block, WellFormed, Ssa;
    ProgramIsSsa();
    InProgram();
    Blocks(v, s);
  }

  lemma Place(k: nat, v: nat)
    requires k < |Program| && v == if k == 3 then 2 else k
    ensures Contains(Top, v) && Program[k] in Block(Cfg, v)
  {
    hide Contains, Block;
    Vertices(v);
    Blocks(v, Program[k]);
  }

  // ----- What the engine does -----

  lemma ZeroIsReduced()
    ensures Truncated(Zero) == Zero && Truncated(One) == One
    ensures Ctx.sem.unary(Move, Zero) == Some(Zero) && Ctx.sem.binary(Add, Zero, One) == Some(One)
  {
    SmallPowers();
    Powers();
    LowOfSmall(0, 8);
    Rreil.ExecuteAdd(0, 1, 8, 1);
  }

  /** The entry stores {0}. */
  lemma EntryItem(r: (Env, bool))
    requires Analysable(Ctx, Cfg, Program, Top) && Good(Ctx, Program, map[])
    requires r == RunItem(Ctx, Cfg, Program, map[], Top, 0, 0, 0, true)
    ensures r == (map[V(0) := Set([Zero])], false)
  {
    hide Ssa, Good, Within, Rreil.Execute1, Rreil.Execute2;
    ProgramIsSsa();
    ZeroIsReduced();
    assert Top.items[0] == Element(0) && Block(Cfg, 0) == [Entry];
    assert Resolve(Ctx, map[], Constant(Zero)) == Set([Zero]);
    var f := x => Ctx.sem.unary(Move, x);
    assert f(Zero) == Some(Zero) && Zero in [Zero];
    assert Image1([Zero], f) == {Zero};
    FromSetUnique([Zero], {Zero});
    assert Transfer(Ctx, map[], Entry) == Set([Zero]);
    OneStatement(Ctx, map[], Entry, false);
  }

  lemma OneStatement(ctx: Context, env: Env, s: Stmt, widen: bool)
    requires WellFormed(ctx, s)
    ensures ExecuteBlock(ctx, env, [s], widen) == ExecuteStatement(ctx, env, s, widen)
  {
    assert [s][1..] == [];
  }

  /** The head sees x3 as unassigned and stores {0} too. */
  lemma HeadItem(r: (Env, bool), env: Env)
    requires Analysable(Ctx, Cfg, Program, Outer) && Good(Ctx, Program, env) && env == map[V(0) := Set([Zero])]
    requires r == RunItem(Ctx, Cfg, Program, env, Outer, 0, 1, 0, true)
    ensures r == (env[V(1) := Set([Zero])], false)
  {
    hide Ssa, Good, Within;
    ProgramIsSsa();
    assert Outer.items[0] == Element(1) && Block(Cfg, 1) == [Head];
    var xs := Abstracted(Ctx, env, Head.op).args;
    assert xs == [Set([Zero]), Meet];
    assert xs[1..] == [Meet];
    assert CombineAll(Combine(Meet, xs[0]), xs[1..]) == CombineAll(Combine(Set([Zero]), Meet), []);
    assert Transfer(Ctx, env, Head) == Set([Zero]);
    OneStatement(Ctx, env, Head, false);
  }

  lemma InnerMissesHead()
    ensures !Assigns(Cfg, Inner, V(1))
  {
    hide Contains, Block;
    forall w | Contains(Inner, w) ensures !BlockAssigns(Block(Cfg, w), V(1)) {
      Vertices(w);
      forall s | s in Block(Cfg, w) ensures Assigned(s) != Some(V(1)) { Blocks(w, s); }
    }
  }

  /** The outer component: its head changed, the inner one made `stable` true again. */
  lemma OuterStopsEarly(env: Env, r: (Env, nat))
    requires Analysable(Ctx, Cfg, Program, Outer) && Good(Ctx, Program, env) && env == map[V(0) := Set([Zero])]
    requires r == Stabilize(Ctx, Cfg, Program, env, Outer)
    ensures r.1 == 1 && V(1) in r.0 && r.0[V(1)] == Set([Zero])
  {
    hide Ssa, Good, Within, Block, Analysable;
    var (e1, s1) := RunItem(Ctx, Cfg, Program, env, Outer, 0, 1, 0, true);
    HeadItem((e1, s1), env);
    ItemAnalysable(Ctx, Cfg, Program, Outer, 1);
    assert Outer.items[0] == Element(1) && Outer.items[1] == Inner;
    InnerMissesHead();
    StabilizeFrame(Ctx, Cfg, Program, e1, Inner, V(1));
    var (e2, s2) := RunItem(Ctx, Cfg, Program, e1, Outer, 1, 1, 0, s1);
    assert s2 && Agree(e1, e2, V(1));
    assert Pass(Ctx, Cfg, Program, e2, Outer, 2, 1, 0, s2) == (e2, s2);
    assert Pass(Ctx, Cfg, Program, e1, Outer, 1, 1, 0, s1) == (e2, s2);
    assert Pass(Ctx, Cfg, Program, env, Outer, 0, 1, 0, true) == (e2, s2);
  }

  /** The whole analysis: one pass, x1 = {0}. */
  lemma TopStopsEarly(r: (Env, nat))
    requires Analysable(Ctx, Cfg, Program, Top) && Good(Ctx, Program, map[])
    requires r == Stabilize(Ctx, Cfg, Program, map[], Top)
    ensures V(1) in r.0 && r.0[V(1)] == Set([Zero])
  {
    hide Ssa, Good, Within, Block, Analysable;
    var (e1, s1) := RunItem(Ctx, Cfg, Program, map[], Top, 0, 0, 0, true);
    EntryItem((e1, s1));
    ItemAnalysable(Ctx, Cfg, Program, Top, 1);
    assert Top.items[0] == Element(0) && Top.items[1] == Outer;
    OuterStopsEarly(e1, Stabilize(Ctx, Cfg, Program, e1, Outer));
    var (e2, s2) := RunItem(Ctx, Cfg, Program, e1, Top, 1, 0, 0, s1);
    assert s2;
    assert Pass(Ctx, Cfg, Program, e2, Top, 2, 0, 0, s2) == (e2, s2);
    assert Pass(Ctx, Cfg, Program, e1, Top, 1, 0, 0, s1) == (e2, s2);
    assert Pass(Ctx, Cfg, Program, map[], Top, 0, 0, 0, true) == (e2, s2);
  }

  /** x0 = 0; x1 = 0; x2 = 0; x3 = 1; x1 = 1. */
  lemma SecondRound() returns (trace: seq<Stmt>, states: seq<State>)
    ensures Run(Ctx, Program, trace, states) && |trace| == 5 && states[0] == map[] && trace[4] == Head
    ensures V(1) in states[5] && states[5][V(1)] == One
  {
    hide Rreil.Execute1, Rreil.Execute2;
    ZeroIsReduced();
    InProgram();
    trace := [Entry, Head, Join2, Increment, Head];
    var s1: State := map[V(0) := Zero];
    var s2, s3 := s1[V(1) := Zero], s1[V(1) := Zero][V(2) := Zero];
    var s4, s5 := s3[V(3) := One], s3[V(3) := One][V(1) := One];
    states := [map[], s1, s2, s3, s4, s5];
    assert ConcreteStep(Ctx.sem, map[], Entry, s1) by { assert s1 == map[][V(0) := Zero]; }
    assert ConcreteStep(Ctx.sem, s1, Head, s2) by { assert Read(s1, Head.op.args[0]) == Some(Zero); }
    assert ConcreteStep(Ctx.sem, s2, Join2, s3) by { assert Read(s2, Join2.op.args[0]) == Some(Zero); }
    assert ConcreteStep(Ctx.sem, s3, Increment, s4);
    assert ConcreteStep(Ctx.sem, s4, Head, s5) by { assert Read(s4, Head.op.args[1]) == Some(One); }
  }

  /** Forgetting `stable` is a real loss: the result misses the value 1 that x1 takes in the second round of
    the outer loop. */
  lemma LoopAroundLoopMissesValues() returns (trace: seq<Stmt>, states: seq<State>)
    ensures Complete(Ctx, Cfg, Program, Top) && Good(Ctx, Program, map[]) && !Settles(Cfg, Top)
    ensures Run(Ctx, Program, trace, states) && |trace| == 5 && states[0] == map[] && trace[4] == Head
    ensures V(1) in states[5] && !Denotes(Look(Stabilize(Ctx, Cfg, Program, map[], Top).0, V(1)), states[5][V(1)])
  {
    hide Good, Settles, Run;
    ExampleComplete();
    ProgramIsSsa();
    TopDoesNotSettle();
    trace, states := SecondRound();
    TopStopsEarly(Stabilize(Ctx, Cfg, Program, map[], Top));
  }

  lemma TopDoesNotSettle()
    ensures !Settles(Cfg, Top)
  {
    Vertices(1);
    Vertices(2);
    assert Top.items[1] == Outer && Outer.items[0] == Element(1) && Outer.items[1] == Inner;
    assert FollowedByComponent(Outer.items, 0) && Forgotten(Outer.items, 1);
    assert Contains(Outer.items[0], 1) && Head in Block(Cfg, 1);
    assert Operands(Head.op)[1] == Operand(3);
    assert Uses(Head, V(3));
    assert Increment in Block(Cfg, 2) && Assigned(Increment) == Some(V(3));
    assert BlockAssigns(Block(Cfg, 2), V(3));
    assert Assigns(Cfg, Inner, V(3));
    assert !Independent(Cfg, Head, Outer.items[1]);
  }

  // ----- The increment behind the inner loop -----

  /** x1 = phi(x0, x2), y0 = x1 + 1 in the inner loop, and x2 = x1 + 1 in the latch. */
  const LatchHead: Stmt := Statement(Target("x", Some(1), 8), Phi([Operand(0), Operand(2)]))
  const Inside: Stmt := Statement(Target("y", Some(0), 8), Binary(Add, Operand(1), Constant(One)))
  const Latch: Stmt := Statement(Target("x", Some(2), 8), Binary(Add, Operand(1), Constant(One)))
  const LatchProgram := [Entry, LatchHead, Inside, Latch]

  /** Edges 0-1, 1-2, 2-2, 2-3 and 3-1: the latch 3 increments. */
  const LatchCfg: Graph := map[0 := [Entry], 1 := [LatchHead], 2 := [Inside], 3 := [Latch]]
  const Latched := Component([Element(1), Inner, Element(3)])
  const LatchTop := Component([Element(0), Latched])

  lemma LatchVertices(v: nat)
    ensures Contains(Inner, v) <==> v == 2
    ensures Contains(Latched, v) <==> 1 <= v <= 3
    ensures Contains(LatchTop, v) <==> v <= 3
  {
    Vertices(v);
    assert Latched.items[0] == Element(1) && Latched.items[1] == Inner && Latched.items[2] == Element(3);
    assert LatchTop.items[0] == Element(0) && LatchTop.items[1] == Latched;
  }

  lemma LatchBlocks(v: nat, s: Stmt)
    ensures s in Block(LatchCfg, v) <==>
            (v == 0 && s == Entry) || (v == 1 && s == LatchHead) || (v == 2 && s == Inside) || (v == 3 && s == Latch)
  {
  }

  lemma LatchIsSsa()
    ensures Ssa(Ctx, LatchProgram) && Good(Ctx, LatchProgram, map[])
    ensures forall s :: s in LatchProgram ==> WellFormed(Ctx, s)
  {
    assert "x"[0] != "y"[0];
    assert Operands(Entry.op) == [Constant(Zero)] && Operands(LatchHead.op) == [Operand(0), Operand(2)];
    assert Operands(Inside.op) == [Operand(1), Constant(One)] && Operands(Latch.op) == [Operand(1), Constant(One)];
    assert Ssa(Ctx, LatchProgram);
    EmptyGood(Ctx, LatchProgram);
  }

  lemma LatchWithin()
    ensures Within(Ctx, LatchCfg, LatchTop, LatchProgram)
  {
    hide Contains, Block, WellFormed;
    LatchIsSsa();
    forall v: nat, s | Contains(LatchTop, v) && s in Block(LatchCfg, v)
      ensures WellFormed(Ctx, s) && s in LatchProgram
    {
      LatchVertices(v);
      LatchBlocks(v, s);
      assert s == LatchProgram[v];
    }
  }

  lemma LatchPlace(k: nat)
    requires k < |LatchProgram|
    ensures Contains(LatchTop, k) && LatchProgram[k] in Block(LatchCfg, k)
  {
    LatchVertices(k);
    LatchBlocks(k, LatchProgram[k]);
  }

  lemma LatchComplete()
    ensures Complete(Ctx, LatchCfg, LatchProgram, LatchTop)
  {
    LatchIsSsa();
    LatchWithin();
    hide Ssa, Within;
    LatchPlace(0);
    LatchPlace(1);
    LatchPlace(2);
    LatchPlace(3);
  }

  /** Neither of the two statements with a component behind it depends on one. */
  lemma EntryAndHead(s: Stmt, w: nat, o: Ordering)
    requires (s == Entry && w == 0 && o == Latched) || (s == LatchHead && w == 1 && o == Inner)
    ensures Block(LatchCfg, w) == [s] && StraightLine([s]) && Independent(LatchCfg, s, o)
  {
    assert "x"[0] != "y"[0];
    assert Operands(Entry.op) == [Constant(Zero)] && Operands(LatchHead.op) == [Operand(0), Operand(2)];
    forall v | Assigns(LatchCfg, o, v) ensures !Uses(s, v) && Assigned(s) != Some(v) {
      hide Contains, Block;
      var u :| Contains(o, u) && BlockAssigns(Block(LatchCfg, u), v);
      var t :| t in Block(LatchCfg, u) && Assigned(t) == Some(v);
      LatchVertices(u);
      LatchBlocks(u, t);
    }
  }

  lemma LatchedLoopSettles()
    ensures Settles(LatchCfg, LatchTop)
  {
    hide Independent, StraightLine, Block, Contains;
    EntryAndHead(Entry, 0, Latched);
    EntryAndHead(LatchHead, 1, Inner);
    assert Settles(LatchCfg, Inner) by { assert Inner.items[0] == Element(2); }
    assert Latched.items[0] == Element(1) && Latched.items[1] == Inner && Latched.items[2] == Element(3);
    assert LatchTop.items[0] == Element(0) && LatchTop.items[1] == Latched;
    assert Settles(LatchCfg, Latched) by { LatchedSettles(); }
    forall j, w, s | 0 < j < 2 && Contains(LatchTop.items[0], w) && s in Block(LatchCfg, w)
      ensures Independent(LatchCfg, s, LatchTop.items[j])
    {
      ElementVertex(0, w);
    }
  }

  lemma ElementVertex(v: nat, w: nat)
    requires Contains(Element(v), w)
    ensures w == v
  {
  }

  lemma LatchedSettles()
    requires Settles(LatchCfg, Inner)
    ensures Settles(LatchCfg, Latched)
  {
    hide Independent, StraightLine, Block, Contains;
    EntryAndHead(LatchHead, 1, Inner);
    assert Latched.items[0] == Element(1) && Latched.items[1] == Inner && Latched.items[2] == Element(3);
    assert !FollowedByComponent(Latched.items, 1) && !FollowedByComponent(Latched.items, 2);
    assert !Forgotten(Latched.items, 2);
    forall j, w, s | 0 < j < 3 && Forgotten(Latched.items, j) &&
                     Contains(Latched.items[0], w) && s in Block(LatchCfg, w)
      ensures Independent(LatchCfg, s, Latched.items[j])
    {
      ElementVertex(1, w);
    }
  }

  /** A nested loop whose latch increments the counter is analysed to its least fixpoint. */
  lemma LatchedLoopIsExact()
    ensures Complete(Ctx, LatchCfg, LatchProgram, LatchTop) && Settles(LatchCfg, LatchTop)
    ensures Good(Ctx, LatchProgram, map[])
    ensures LeastFixpoint(Ctx, LatchProgram, Stabilize(Ctx, LatchCfg, LatchProgram, map[], LatchTop).0)
  {
    LatchComplete();
    LatchedLoopSettles();
    hide Settles, Good, Complete, LeastFixpoint;
    SettlingIsLeastFixpoint(Ctx, LatchCfg, LatchProgram, LatchTop);
  }
}
