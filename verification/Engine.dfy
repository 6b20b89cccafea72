/** The engine as the source runs it: one environment `ret`, updated in place. */
module Engine {
  import opened Il
  import opened KsetDomain
  import opened Interpreter
  import opened Nested
  import opened Narrowing

  /** From `env` on, the outer loop ends in `final` after `count` more passes. */
  ghost predicate Leads(ctx: Context, g: Graph, all: seq<Stmt>, env: Env, o: Ordering, head: nat, iteration: nat,
                        final: Env, count: nat)
  {
    && o.Component? && Analysable(ctx, g, all, o) && Good(ctx, all, env)
    && Iterate(ctx, g, all, env, o, head, iteration) == (final, count)
  }

  /** One round of the outer loop: done, or one pass closer to the same result at a higher rank. */
  lemma IterateUnfolds(ctx: Context, g: Graph, all: seq<Stmt>, env: Env, o: Ordering, head: nat, iteration: nat,
                       final: Env, count: nat, env': Env, stable: bool)
    requires Leads(ctx, g, all, env, o, head, iteration, final, count)
    requires (env', stable) == Pass(ctx, g, all, env, o, 0, head, iteration, true)
    ensures stable ==> final == env' && count == 1
    ensures !stable ==>
              && Rank(all, env) < Rank(all, env')
              && count > 1
              && Leads(ctx, g, all, env', o, head, iteration + 1, final, count - 1)
  {
    hide Good, Analysable, Rank, Pass;
    if !stable { assert Iterate(ctx, g, all, env', o, head, iteration + 1) == (final, count - 1); }
  }

  lemma LeadsAssigns(ctx: Context, g: Graph, all: seq<Stmt>, env: Env, o: Ordering, head: nat, iteration: nat,
                     final: Env, count: nat)
    requires Leads(ctx, g, all, env, o, head, iteration, final, count)
    ensures forall i :: 0 <= i < |all| ==> Assigned(all[i]).Some?
  {
  }

  /** The key under which a variable's value is returned. */
  function Reported(ctx: Context, v: Var): Lvalue<string>
    requires v.name in ctx.sizes
  {
    Target(v.name, Some(v.subscript), ctx.sizes[v.name])
  }

  /** The result holds exactly the variables of recorded size, with their values. */
  ghost predicate Reports(ctx: Context, values: Env, result: map<Lvalue<string>, Kset>) {
    && (forall v :: v in values && v.name in ctx.sizes ==>
          Reported(ctx, v) in result && result[Reported(ctx, v)] == values[v])
    && (forall lv :: lv in result ==> exists v :: v in values && v.name in ctx.sizes && lv == Reported(ctx, v))
  }

  class Engine {
    const ctx: Context
    const graph: Graph
    var ret: Env

    constructor (ctx: Context, graph: Graph)
      ensures this.ctx == ctx && this.graph == graph && ret == map[]
    {
      this.ctx, this.graph := ctx, graph;
      ret := map[];
    }

    /** The closure `bb.execute` calls for each statement. */
    method ExecuteOne(s: Stmt, widen: bool) returns (change: bool)
      requires WellFormed(ctx, s)
      modifies this`ret
      ensures (ret, change) == ExecuteStatement(ctx, old(ret), s, widen)
    {
      change := false;
      if Assigned(s).Some? {
        var op := Abstracted(ctx, ret, s.op);
        var next := ExecuteLoop(ctx.sem, op);
        var assignee := Assigned(s).value;
        if assignee in ret {
          var cur := ret[assignee];
          if widen {
            var w := Widen(cur, next);
            if w != cur {
              change := true;
              ret := ret[assignee := w];
            }
          } else if !MoreExact(cur, next) && cur != next {
            change := true;
            ret := ret[assignee := next];
          }
        } else {
          change := true;
          ret := ret[assignee := next];
        }
      }
    }

    /** `execute`. */
    method ExecuteVertex(v: nat, widen: bool) returns (change: bool)
      requires forall s :: s in Block(graph, v) ==> WellFormed(ctx, s)
      modifies this`ret
      ensures (ret, change) == ExecuteBlock(ctx, old(ret), Block(graph, v), widen)
    {
      change := false;
      var block := Block(graph, v);
      for i := 0 to |block|
        invariant var (env', more) := ExecuteBlock(ctx, ret, block[i..], widen);
                  ExecuteBlock(ctx, old(ret), block, widen) == (env', change || more)
      {
        assert block[i..][0] == block[i] && block[i..][1..] == block[i + 1..];
        var c := ExecuteOne(block[i], widen);
        change := change || c;
      }
    }

    /** The `for x in h.iter()` loop: one pass over the items of `o`. */
    method RunPass(o: Ordering, head: nat, iteration: nat, ghost all: seq<Stmt>) returns (stable: bool)
      requires o.Component? && Analysable(ctx, graph, all, o) && Good(ctx, all, ret)
      modifies this`ret
      ensures (ret, stable) == Pass(ctx, graph, all, old(ret), o, 0, head, iteration, true)
      decreases o, 0
    {
      stable := true;
      ghost var r := Pass(ctx, graph, all, ret, o, 0, head, iteration, true);
      for i := 0 to |o.items|
        invariant Good(ctx, all, ret)
        invariant r == Pass(ctx, graph, all, ret, o, i, head, iteration, stable)
      {
        ghost var after := RunItem(ctx, graph, all, ret, o, i, head, iteration, stable);
        assert r == Pass(ctx, graph, all, after.0, o, i + 1, head, iteration, after.1);
        ItemAnalysable(ctx, graph, all, o, i);
        match o.items[i] {
          case Element(v) =>
            assert Contains(o.items[i], v);
            var c := ExecuteVertex(v, iteration >= 2 && v == head);
            stable := stable && !c;
          case Component(_) =>
            var passes := StabilizeComponent(o.items[i], all);
            stable := true;
        }
        assert (ret, stable) == after;
      }
    }

    /** One round of the outer `loop`. */
    method RunRound(o: Ordering, head: nat, iteration: nat, ghost all: seq<Stmt>, ghost final: Env, ghost count: nat)
      returns (stable: bool)
      requires Leads(ctx, graph, all, ret, o, head, iteration, final, count)
      modifies this`ret
      ensures stable ==> ret == final && count == 1
      ensures !stable ==>
                && Rank(all, old(ret)) < Rank(all, ret)
                && count > 1
                && Leads(ctx, graph, all, ret, o, head, iteration + 1, final, count - 1)
      decreases o, 1
    {
      ghost var env := ret;
      stable := RunPass(o, head, iteration, all);
      IterateUnfolds(ctx, graph, all, env, o, head, iteration, final, count, ret, stable);
    }

    /** The outer `loop`. */
    method RunPasses(o: Ordering, head: nat, ghost all: seq<Stmt>, ghost final: Env,
                     ghost count: nat) returns (passes: nat)
      requires Leads(ctx, graph, all, ret, o, head, 0, final, count)
      modifies this`ret
      ensures ret == final && passes == count
      decreases o, 2
    {
      hide Leads;
      LeadsAssigns(ctx, graph, all, ret, o, head, 0, final, count);
      passes := 0;
      var stable := false;
      while !stable
        invariant passes <= count
        invariant !stable ==> Leads(ctx, graph, all, ret, o, head, passes, final, count - passes)
        invariant stable ==> ret == final && passes == count
        decreases !stable, 12 * |all| - Rank(all, ret)
      {
        stable := RunRound(o, head, passes, all, final, count - passes);
        passes := passes + 1;
      }
    }

    /** `stabilize`. `passes` counts the rounds of its own loop. */
    method StabilizeComponent(o: Ordering, ghost all: seq<Stmt>) returns (passes: nat)
      requires o.Component? && Analysable(ctx, graph, all, o) && Good(ctx, all, ret)
      modifies this`ret
      ensures (ret, passes) == Stabilize(ctx, graph, all, old(ret), o)
      decreases o, 3
    {
      passes := 0;
      if o.items != [] {
        ItemAnalysable(ctx, graph, all, o, 0);
        match o.items[0]
        case Element(head) =>
          ghost var (final, count) := Iterate(ctx, graph, all, ret, o, head, 0);
          passes := RunPasses(o, head, all, final, count);
        case Component(_) => passes := StabilizeComponent(o.items[0], all);
      }
    }

    /** The loop over `constr` at the end of `stabilize`. */
    method NarrowAll(ks: seq<Constraint>)
      modifies this`ret
      ensures ret == Narrowed(old(ret), ks)
    {
      for i := 0 to |ks|
        invariant Narrowed(ret, ks[i..]) == Narrowed(old(ret), ks)
      {
        assert ks[i..][0] == ks[i] && ks[i..][1..] == ks[i + 1..];
        var v := Constrained(ks[i]);
        if v.Some? && v.value in ret {
          ret := ret[v.value := Narrow(ret[v.value], ks[i].bound)];
        }
      }
    }

    /** What `approximate` returns: the fixed values prevail. */
    method Report() returns (result: map<Lvalue<string>, Kset>)
      ensures Reports(ctx, ret + ctx.fixed, result)
    {
      var values := ret + ctx.fixed;
      result := map v | v in values && v.name in ctx.sizes :: Reported(ctx, v) := values[v];
    }

    /** `approximate`: stabilise the weak topological order from the empty environment, narrow by the constraints
      of guarded edges, let the fixed values prevail and report the variables of recorded size. With inner
      components the source narrows after each of them as well, which is modelled without constraints only. */
    method Approximate(o: Ordering, ks: seq<Constraint>, ghost all: seq<Stmt>)
      returns (result: map<Lvalue<string>, Kset>)
      requires o.Component? && Analysable(ctx, graph, all, o) && ret == map[]
      requires ks == [] || Flat(o)
      modifies this`ret
      ensures Good(ctx, all, map[])
      ensures var env := Stabilize(ctx, graph, all, map[], o).0;
              && Good(ctx, all, env) && ret == Narrowed(env, ks)
              && (Complete(ctx, graph, all, o) && Settles(graph, o) ==> LeastFixpoint(ctx, all, env))
              && (FlatProgram(ctx, graph, all, o) ==> LeastFixpoint(ctx, all, env))
      ensures Reports(ctx, ret + ctx.fixed, result)
    {
      hide Reports;
      EmptyGood(ctx, all);
      var passes := StabilizeComponent(o, all);
      NarrowAll(ks);
      result := Report();
      if Complete(ctx, graph, all, o) && Settles(graph, o) {
        SettlingIsLeastFixpoint(ctx, graph, all, o);
      }
      if FlatProgram(ctx, graph, all, o) {
        StabilizeIsLeastFixpoint(ctx, graph, all, o);
      }
    }
  }
}
