/** What the constraints of guarded edges do to the result: the loop at the end of `stabilize`
  (abstract-interp/src/interpreter.rs:122-133). A guard constrains its variable on one edge; the loop narrows the
  variable's only entry. */
module Narrowing {
  import opened Il
  import opened KsetDomain
  import opened Interpreter
  import Bits
  import Rreil

  /** An entry of `constr`: a variable and the abstract value of what its guard compares it with. */
  datatype Constraint = Constraint(variable: Lvalue<string>, bound: Kset)

  function Constrained(k: Constraint): Option<Var> {
    match k.variable
    case Target(name, Some(n), _) => Some(Var(name, n))
    case _ => None
  }

  function NarrowedBy(env: Env, k: Constraint): Env {
    match Constrained(k)
    case Some(v) => if v in env then env[v := Narrow(env[v], k.bound)] else env
    case None => env
  }

  /** The loop over all constraints, in the order in which the hash map yields them. */
  function Narrowed(env: Env, ks: seq<Constraint>): Env
    decreases |ks|
  {
    if ks == [] then env else Narrowed(NarrowedBy(env, ks[0]), ks[1..])
  }

  /** Every constraint on `v` admits `c`. */
  ghost predicate Admits(ks: seq<Constraint>, v: Var, c: Const) {
    forall k :: k in ks && Constrained(k) == Some(v) ==> Denotes(k.bound, c)
  }

  lemma NarrowDenotes(a: Kset, b: Kset, c: Const)
    ensures Denotes(Narrow(a, b), c) <==> Denotes(a, c) && Denotes(b, c)
  {
  }

  /** What is left denotes exactly the admitted constants, whatever the constraints. */
  lemma {:induction false} NarrowedDenotes(env: Env, ks: seq<Constraint>, v: Var, c: Const)
    ensures Denotes(Look(Narrowed(env, ks), v), c) <==> Denotes(Look(env, v), c) && Admits(ks, v, c)
    decreases |ks|
  {
    if ks != [] {
      var k, rest := ks[0], ks[1..];
      var next := NarrowedBy(env, k);
      NarrowedDenotes(next, rest, v, c);
      NarrowDenotes(Look(env, v), k.bound, c);
      assert ks == [k] + rest;
      assert Admits(ks, v, c) <==> Admits(rest, v, c) && (Constrained(k) == Some(v) ==> Denotes(k.bound, c));
    }
  }

  // ----- The order does not matter -----

  ghost predicate SortedIfSet(a: Kset) {
    a.Set? ==> StrictlySorted(a.elems)
  }

  /** Constraints as `abstract_constraint` makes them: sorted sets or Join. */
  ghost predicate Plausible(ks: seq<Constraint>) {
    forall k :: k in ks ==> !k.bound.Meet? && SortedIfSet(k.bound)
  }

  ghost predicate Unconstrained(ks: seq<Constraint>, v: Var) {
    forall k :: k in ks && Constrained(k) == Some(v) ==> k.bound.Join?
  }

  /** The form of an entry depends on the old entry and on whether anything constrains it. */
  lemma {:induction false} NarrowedForm(env: Env, ks: seq<Constraint>, v: Var)
    requires Plausible(ks) && SortedIfSet(Look(env, v))
    ensures v in Narrowed(env, ks) <==> v in env
    ensures var a, r := Look(env, v), Look(Narrowed(env, ks), v);
            SortedIfSet(r) && (r.Meet? <==> a.Meet?) && (r.Join? <==> a.Join? && Unconstrained(ks, v))
    decreases |ks|
  {
    if ks != [] {
      var k, rest := ks[0], ks[1..];
      assert ks == [k] + rest;
      assert k in ks;
      NarrowedForm(NarrowedBy(env, k), rest, v);
      assert Unconstrained(ks, v) <==> Unconstrained(rest, v) && (Constrained(k) == Some(v) ==> k.bound.Join?);
    }
  }

  lemma NarrowedIgnoresOrder(env: Env, ks: seq<Constraint>, ks': seq<Constraint>)
    requires CanonicalEnv(env) && Plausible(ks) && forall k :: k in ks <==> k in ks'
    ensures Narrowed(env, ks) == Narrowed(env, ks')
  {
    forall v ensures v in Narrowed(env, ks) <==> v in Narrowed(env, ks')
             ensures Look(Narrowed(env, ks), v) == Look(Narrowed(env, ks'), v)
    {
      NarrowedForm(env, ks, v);
      NarrowedForm(env, ks', v);
      var a, a' := Look(Narrowed(env, ks), v), Look(Narrowed(env, ks'), v);
      assert Unconstrained(ks, v) <==> Unconstrained(ks', v);
      if a.Set? {
        forall c ensures Denotes(a, c) <==> Denotes(a', c) {
          NarrowedDenotes(env, ks, v, c);
          NarrowedDenotes(env, ks', v, c);
        }
        SameElements(a, a');
      }
    }
    forall v | v in Narrowed(env, ks) ensures Narrowed(env, ks)[v] == Narrowed(env, ks')[v] {
      assert Look(Narrowed(env, ks), v) == Look(Narrowed(env, ks'), v);
    }
  }

  lemma SameElements(a: Kset, b: Kset)
    requires a.Set? && b.Set? && SortedIfSet(a) && SortedIfSet(b) && forall c :: Denotes(a, c) <==> Denotes(b, c)
    ensures a == b
  {
    forall c ensures c in Elems(a.elems) <==> c in Elems(b.elems) {
      assert Denotes(a, c) <==> Denotes(b, c);
    }
    SortedUnique(a.elems, b.elems);
  }

  // ----- Soundness -----

  /** Narrowing a fixpoint keeps it sound along a run iff the run never assigns a variable a value that one of
    the variable's constraints excludes. */
  lemma NarrowedSoundIff(ctx: Context, all: seq<Stmt>, env: Env, ks: seq<Constraint>, trace: seq<Stmt>,
                         states: seq<State>)
    requires Ssa(ctx, all) && Proper(ctx, env) && Fixpoint(ctx, all, env)
    requires Run(ctx, all, trace, states) && Covered(ctx, env, states[0])
    ensures (forall i :: 0 <= i < |states| ==> Covered(ctx, Narrowed(env, ks), states[i])) <==>
            (forall i, v :: 0 <= i < |states| && v in states[i] && v !in ctx.fixed ==> Admits(ks, v, states[i][v]))
  {
    Soundness(ctx, all, env, trace, states);
    forall i, v | 0 <= i < |states| && v in states[i] && v !in ctx.fixed
      ensures Denotes(Look(Narrowed(env, ks), v), states[i][v]) <==> Admits(ks, v, states[i][v])
    {
      assert Covered(ctx, env, states[i]);
      NarrowedDenotes(env, ks, v, states[i][v]);
    }
  }

  // ----- A guard that drops a value -----

  const One := Const(1, 8)
  const Two := Const(2, 8)

  function X(k: nat): Rvalue<string> {
    Variable("x", Some(k), 0, 8)
  }

  /** Two branches set x to 1 and 2; where they meet, the code branches on x == 1. */
  const Left: Stmt := Statement(Target("x", Some(0), 8), Unary(Move, Constant(One)))
  const Right: Stmt := Statement(Target("x", Some(1), 8), Unary(Move, Constant(Two)))
  const Meeting: Stmt := Statement(Target("x", Some(2), 8), Phi([X(0), X(1)]))
  const Test: Stmt := Statement(Target("z", Some(0), 1), Binary(Equal, X(2), Constant(One)))
  const Branches := [Left, Right, Meeting, Test]
  const Ctx := Context(Semantics(Rreil.Execute2, Rreil.Execute1), map["x" := 8, "z" := 1], map[])
  const Guard := [Constraint(Target("x", Some(2), 8), Set([One]))]

  lemma TwoIsReduced()
    ensures Truncated(Two) == Two && Rreil.Execute1(Move, Two) == Some(Two)
  {
    Bits.Powers();
    Bits.LowOfSmall(2, 8);
  }

  /** Through the right branch x2 is 2. No result of the analysis covers that once the guard has narrowed it. */
  lemma GuardDropsValue()
    ensures var x1, x2 := Var("x", 1), Var("x", 2);
            var trace, states := [Right, Meeting], [map[], map[x1 := Two], map[x1 := Two, x2 := Two]];
            && Run(Ctx, Branches, trace, states)
            && forall env: Env :: !Covered(Ctx, Narrowed(env, Guard), states[2])
  {
    var x1, x2 := Var("x", 1), Var("x", 2);
    var trace, states := [Right, Meeting], [map[], map[x1 := Two], map[x1 := Two, x2 := Two]];
    TwoIsReduced();
    assert Branches[1] == Right && Branches[2] == Meeting;
    assert ConcreteStep(Ctx.sem, states[0], Right, states[1]);
    assert Yields(Ctx.sem, states[1], Meeting.op, Some(Two)) by {
      assert Meeting.op.args[1] == X(1) && Read(states[1], X(1)) == Some(Two);
    }
    assert ConcreteStep(Ctx.sem, states[1], Meeting, states[2]);
    forall env: Env ensures !Covered(Ctx, Narrowed(env, Guard), states[2]) {
      NarrowedDenotes(env, Guard, x2, Two);
      assert Guard[0] in Guard;
    }
  }
}
