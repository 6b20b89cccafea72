/** The fixpoint engine (abstract-interp/src/interpreter.rs) over the Kset domain.

  `Stabilize` follows the source on every hierarchical ordering, without edge constraints. Its
  result never exceeds the least fixpoint; on a flat component it is the least fixpoint. */
module Interpreter {
  import opened Il
  import opened Sets
  import opened KsetDomain
  import Bits

  /** An SSA variable. */
  datatype Var = Var(name: string, subscript: nat)

  type Stmt = Statement<string>
  type Env = map<Var, Kset>

  /** A weak topological order: elements are control flow vertices. */
  datatype Ordering = Element(vertex: nat) | Component(items: seq<Ordering>)

  /** The statements of every resolved vertex; unresolved and failed vertices have no entry. */
  type Graph = map<nat, seq<Stmt>>

  /** What stays constant during the analysis. */
  datatype Context = Context(sem: Semantics, sizes: map<string, nat>, fixed: Env)

  function Assigned(s: Stmt): Option<Var> {
    match s.assignee
    case Target(name, Some(k), _) => Some(Var(name, k))
    case _ => None
  }

  // ----- Transfer functions -----

  function Look(env: Env, v: Var): Kset {
    if v in env then env[v] else Meet
  }

  /** `res`: the abstract value of an operand. */
  function Resolve(ctx: Context, env: Env, rv: Rvalue<string>): Kset {
    match rv
    case Variable(name, Some(k), offset, size) =>
      var v := Var(name, k);
      var t := if v in ctx.fixed then ctx.fixed[v] else Look(env, v);
      if offset > 0 || size != (if name in ctx.sizes then ctx.sizes[name] else 0)
      then Extract(t, size, offset)
      else t
    case _ => AbstractValue(rv)
  }

  /** What an operand stands for: the fixed value or the current one of a whole variable, the low bits of a
    constant, anything for `?`. */
  lemma ResolveMeans(ctx: Context, env: Env, rv: Rvalue<string>, c: Const)
    requires FullWidth(ctx, rv) && Proper(ctx, env)
    ensures Denotes(Resolve(ctx, env, rv), c) <==>
            match rv
            case Variable(name, Some(k), _, _) =>
              var v := Var(name, k);
              if v in ctx.fixed then Denotes(ctx.fixed[v], c) else v in env && Denotes(env[v], c)
            case Constant(d) => c == Const(if d.size < 64 then Bits.Low(d.value, d.size) else d.value, d.size)
            case _ => true
  {
    hide Bits.Low;
    AbstractValueIs(rv);
  }

  /** `lift` with `res`. */
  function Abstracted(ctx: Context, env: Env, op: Operation<Rvalue<string>>): Operation<Kset> {
    match op
    case Binary(o, a, b) => Binary(o, Resolve(ctx, env, a), Resolve(ctx, env, b))
    case Unary(o, a) => Unary(o, Resolve(ctx, env, a))
    case Initialize(g, n) => Initialize(g, n)
    case Phi(args) => Phi(seq(|args|, i requires 0 <= i < |args| => Resolve(ctx, env, args[i])))
  }

  /** The abstract value `s` assigns under `env`. */
  ghost function Transfer(ctx: Context, env: Env, s: Stmt): Kset
    requires s.op.Phi? ==> s.op.args != []
  {
    Execute(ctx.sem, Abstracted(ctx, env, s.op))
  }

  // ----- Programs -----

  function Operands(op: Operation<Rvalue<string>>): seq<Rvalue<string>> {
    match op
    case Binary(_, a, b) => [a, b]
    case Unary(_, a) => [a]
    case Initialize(_, _) => []
    case Phi(args) => args
  }

  /** The operand reads a whole variable, or any part of one whose name the program never assigns and
    the caller did not fix; such a read resolves to Meet. */
  predicate FullWidth(ctx: Context, rv: Rvalue<string>) {
    rv.Variable? && rv.subscript.Some? ==>
      if rv.name in ctx.sizes then rv.offset == 0 && rv.size == ctx.sizes[rv.name]
      else Var(rv.name, rv.subscript.value) !in ctx.fixed
  }

  /** `all` lists the assignments of an SSA program: each variable once, of recorded size, whole variables
    as operands, no empty Phi. */
  ghost predicate Ssa(ctx: Context, all: seq<Stmt>) {
    && (forall i :: 0 <= i < |all| ==> WellFormed(ctx, all[i]) && Assigned(all[i]).Some?)
    && (forall i :: 0 <= i < |all| ==> Assigned(all[i]).value.name in ctx.sizes)
    && (forall i, j :: 0 <= i < j < |all| ==> Assigned(all[i]) != Assigned(all[j]))
    && CanonicalEnv(ctx.fixed)
  }

  ghost predicate WellFormed(ctx: Context, s: Stmt) {
    && (s.op.Phi? ==> s.op.args != [])
    && forall i :: 0 <= i < |Operands(s.op)| ==> FullWidth(ctx, Operands(s.op)[i])
  }

  ghost predicate CanonicalEnv(env: Env) {
    forall v :: v in env ==> Canonical(env[v])
  }

  /** Canonical values for variables whose names the program assigns. */
  ghost predicate Proper(ctx: Context, env: Env) {
    CanonicalEnv(env) && forall v :: v in env ==> v.name in ctx.sizes
  }

  ghost predicate EnvLeq(e: Env, e': Env) {
    forall v :: Leq(Look(e, v), Look(e', v))
  }

  /** `s` has nothing left to change under `env`. */
  ghost predicate AtFixpoint(ctx: Context, env: Env, s: Stmt)
    requires WellFormed(ctx, s)
  {
    Assigned(s).Some? ==> Assigned(s).value in env && env[Assigned(s).value] == Transfer(ctx, env, s)
  }

  ghost predicate Fixpoint(ctx: Context, all: seq<Stmt>, env: Env)
    requires Ssa(ctx, all)
  {
    forall i :: 0 <= i < |all| ==> AtFixpoint(ctx, env, all[i])
  }

  ghost predicate PostFixpoint(ctx: Context, all: seq<Stmt>, p: Env)
    requires Ssa(ctx, all)
  {
    && Proper(ctx, p)
    && forall i :: 0 <= i < |all| ==> Leq(Transfer(ctx, p, all[i]), Look(p, Assigned(all[i]).value))
  }

  /** The invariant of the iteration: canonical values, no foreign variables, every value at most
    what its statement would now assign, and nothing above any post-fixpoint. */
  ghost predicate Good(ctx: Context, all: seq<Stmt>, env: Env)
    requires Ssa(ctx, all)
  {
    && Proper(ctx, env)
    && (forall v :: v in env ==> exists i :: 0 <= i < |all| && Assigned(all[i]) == Some(v))
    && (forall i :: 0 <= i < |all| ==> Leq(Look(env, Assigned(all[i]).value), Transfer(ctx, env, all[i])))
    && (forall p :: PostFixpoint(ctx, all, p) ==> EnvLeq(env, p))
  }

  // ----- Monotonicity -----

  lemma ResolveMonotone(ctx: Context, e: Env, e': Env, rv: Rvalue<string>)
    requires FullWidth(ctx, rv) && CanonicalEnv(ctx.fixed)
    requires Proper(ctx, e) && Proper(ctx, e') && EnvLeq(e, e')
    ensures Canonical(Resolve(ctx, e, rv)) && Canonical(Resolve(ctx, e', rv))
    ensures Leq(Resolve(ctx, e, rv), Resolve(ctx, e', rv))
  {
  }

  lemma AbstractedMonotone(ctx: Context, e: Env, e': Env, s: Stmt)
    requires WellFormed(ctx, s) && CanonicalEnv(ctx.fixed)
    requires Proper(ctx, e) && Proper(ctx, e') && EnvLeq(e, e')
    ensures OpLeq(Abstracted(ctx, e, s.op), Abstracted(ctx, e', s.op))
  {
    var ops := Operands(s.op);
    match s.op {
      case Binary(o, a, b) =>
        ResolveMonotone(ctx, e, e', ops[0]);
        ResolveMonotone(ctx, e, e', ops[1]);
      case Unary(o, a) =>
        ResolveMonotone(ctx, e, e', ops[0]);
      case Initialize(_, _) =>
      case Phi(args) =>
        forall i | 0 <= i < |args|
          ensures Canonical(Resolve(ctx, e, args[i])) && Canonical(Resolve(ctx, e', args[i]))
          ensures Leq(Resolve(ctx, e, args[i]), Resolve(ctx, e', args[i]))
        {
          assert args[i] == ops[i];
          ResolveMonotone(ctx, e, e', args[i]);
        }
    }
  }

  lemma TransferMonotone(ctx: Context, e: Env, e': Env, s: Stmt)
    requires WellFormed(ctx, s) && CanonicalEnv(ctx.fixed)
    requires Proper(ctx, e) && Proper(ctx, e') && EnvLeq(e, e')
    ensures Leq(Transfer(ctx, e, s), Transfer(ctx, e', s))
    ensures Canonical(Transfer(ctx, e, s))
  {
    AbstractedMonotone(ctx, e, e', s);
    var x, y := Abstracted(ctx, e, s.op), Abstracted(ctx, e', s.op);
    ExecuteMonotone(ctx.sem, x, y);
    if x.Phi? { PhiIsLub(ctx.sem, x.args, Meet); }
  }

  // ----- One statement -----

  /** The closure passed to `bb.execute`: the new environment and whether it changed. */
  ghost function ExecuteStatement(ctx: Context, env: Env, s: Stmt, widen: bool): (Env, bool)
    requires WellFormed(ctx, s)
  {
    if Assigned(s).None? then (env, false)
    else
      var v, next := Assigned(s).value, Transfer(ctx, env, s);
      if v !in env then (env[v := next], true)
      else
        var cur := env[v];
        if widen then
          var w := Widen(cur, next);
          if w != cur then (env[v := w], true) else (env, false)
        else if !MoreExact(cur, next) && cur != next then (env[v := next], true)
        else (env, false)
  }

  /** Height of a variable's value in the chain absent < Meet < 1..10 elements < Join. */
  ghost function Height(env: Env, v: Var): nat {
    if v !in env then 0
    else match env[v]
         case Meet => 1
         case Set(elems) => if |elems| <= MAXIMAL_CARDINALITY then 1 + |elems| else 11
         case Join => 12
  }

  ghost function Rank(all: seq<Stmt>, env: Env): (r: nat)
    requires forall i :: 0 <= i < |all| ==> Assigned(all[i]).Some?
    ensures r <= 12 * |all|
  {
    if all == [] then 0 else Height(env, Assigned(all[0]).value) + Rank(all[1..], env)
  }

  /** Raising variables raises the rank, strictly if one of the listed variables rises strictly. */
  lemma {:induction false} RankGrows(all: seq<Stmt>, e: Env, e': Env)
    requires forall i :: 0 <= i < |all| ==> Assigned(all[i]).Some?
    requires forall v :: Height(e, v) <= Height(e', v)
    ensures Rank(all, e) <= Rank(all, e')
    ensures (exists i :: 0 <= i < |all| && Height(e, Assigned(all[i]).value) < Height(e', Assigned(all[i]).value)) ==>
              Rank(all, e) < Rank(all, e')
  {
    if all != [] {
      RankGrows(all[1..], e, e');
      forall i | 0 < i < |all| && Height(e, Assigned(all[i]).value) < Height(e', Assigned(all[i]).value)
        ensures Rank(all, e) < Rank(all, e')
      {
        assert all[i] == all[1..][i - 1];
      }
    }
  }

  lemma HeightStrict(a: Kset, b: Kset, v: Var)
    requires Canonical(a) && Canonical(b) && Leq(a, b) && a != b
    ensures Height(map[v := a], v) < Height(map[v := b], v)
  {
    if a.Set? && b.Set? {
      SortedCardinality(a.elems);
      SortedCardinality(b.elems);
      SubsetCardinality(Elems(a.elems), Elems(b.elems));
      if |a.elems| == |b.elems| {
        SubsetEqual(Elems(a.elems), Elems(b.elems));
        SortedUnique(a.elems, b.elems);
      }
    }
  }

  /** While the iteration ascends, both update rules, with and without widening, store exactly the
    transferred value. */
  lemma UpdateRules(ctx: Context, all: seq<Stmt>, env: Env, k: nat, widen: bool)
    requires Ssa(ctx, all) && Good(ctx, all, env) && k < |all|
    ensures var v, next := Assigned(all[k]).value, Transfer(ctx, env, all[k]);
            ExecuteStatement(ctx, env, all[k], widen) ==
              if v in env && env[v] == next then (env, false) else (env[v := next], true)
  {
    var v, next := Assigned(all[k]).value, Transfer(ctx, env, all[k]);
    TransferMonotone(ctx, env, env, all[k]);
    if v in env {
      assert Look(env, v) == env[v];
      MoreExactIsStrictSuperset(env[v], next);
      if Leq(next, env[v]) { LeqAntisymmetric(env[v], next); }
    }
  }

  /** Storing the transferred value keeps the invariant and only raises values. */
  lemma RaiseKeepsGood(ctx: Context, all: seq<Stmt>, env: Env, k: nat)
    requires Ssa(ctx, all) && Good(ctx, all, env) && k < |all|
    ensures var env' := env[Assigned(all[k]).value := Transfer(ctx, env, all[k])];
            EnvLeq(env, env') && Good(ctx, all, env')
  {
    var v, next := Assigned(all[k]).value, Transfer(ctx, env, all[k]);
    var env' := env[v := next];
    TransferMonotone(ctx, env, env, all[k]);
    assert Proper(ctx, env');
    assert EnvLeq(env, env') by {
      forall w ensures Leq(Look(env, w), Look(env', w)) {
        if w == v { assert Leq(Look(env, Assigned(all[k]).value), Transfer(ctx, env, all[k])); }
      }
    }
    forall i | 0 <= i < |all|
      ensures Leq(Look(env', Assigned(all[i]).value), Transfer(ctx, env', all[i]))
    {
      TransferMonotone(ctx, env, env', all[i]);
      var w := Assigned(all[i]).value;
      if i == k {
        assert Look(env', w) == next;
      } else {
        assert w != v;
        LeqTransitive(Look(env, w), Transfer(ctx, env, all[i]), Transfer(ctx, env', all[i]));
      }
    }
    forall p | PostFixpoint(ctx, all, p) ensures EnvLeq(env', p) {
      TransferMonotone(ctx, env, p, all[k]);
      LeqTransitive(next, Transfer(ctx, p, all[k]), Look(p, v));
      forall w ensures Leq(Look(env', w), Look(p, w)) {
        assert Leq(Look(env, w), Look(p, w));
      }
    }
  }

  lemma RaiseRank(all: seq<Stmt>, env: Env, k: nat, next: Kset)
    requires forall i :: 0 <= i < |all| ==> Assigned(all[i]).Some?
    requires k < |all| && Canonical(next)
    requires var v := Assigned(all[k]).value;
             v in env ==> Canonical(env[v]) && Leq(env[v], next) && env[v] != next
    ensures Rank(all, env) < Rank(all, env[Assigned(all[k]).value := next])
  {
    var v := Assigned(all[k]).value;
    var env' := env[v := next];
    if v in env { HeightStrict(env[v], next, v); }
    assert Height(env, v) < Height(env', v);
    RankGrows(all, env, env');
  }

  /** What one statement does: a step up inside the invariant, or nothing at all. */
  ghost predicate Ascends(ctx: Context, all: seq<Stmt>, env: Env, env': Env)
    requires Ssa(ctx, all)
  {
    Good(ctx, all, env') && EnvLeq(env, env') && Rank(all, env) <= Rank(all, env')
  }

  lemma AscendsTransitive(ctx: Context, all: seq<Stmt>, e1: Env, e2: Env, e3: Env)
    requires Ssa(ctx, all) && Ascends(ctx, all, e1, e2) && Ascends(ctx, all, e2, e3)
    ensures Ascends(ctx, all, e1, e3)
  {
    forall v ensures Leq(Look(e1, v), Look(e3, v)) {
      LeqTransitive(Look(e1, v), Look(e2, v), Look(e3, v));
    }
  }

  lemma StatementAscends(ctx: Context, all: seq<Stmt>, env: Env, s: Stmt, widen: bool)
    requires Ssa(ctx, all) && Good(ctx, all, env)
    requires WellFormed(ctx, s) && (Assigned(s).Some? ==> s in all)
    ensures var (env', change) := ExecuteStatement(ctx, env, s, widen);
            && Ascends(ctx, all, env, env')
            && (change ==> Rank(all, env) < Rank(all, env'))
            && (!change ==> env' == env && AtFixpoint(ctx, env, s))
  {
    if Assigned(s).Some? {
      var k :| 0 <= k < |all| && all[k] == s;
      UpdateRules(ctx, all, env, k, widen);
      var v, next := Assigned(s).value, Transfer(ctx, env, s);
      if !(v in env && env[v] == next) {
        TransferMonotone(ctx, env, env, s);
        if v in env { assert Look(env, v) == env[v]; }
        RaiseKeepsGood(ctx, all, env, k);
        RaiseRank(all, env, k, next);
      }
    }
  }

  // ----- Blocks, passes, components -----

  /** `execute` on the statements of one vertex. */
  ghost function ExecuteBlock(ctx: Context, env: Env, block: seq<Stmt>, widen: bool): (Env, bool)
    requires forall s :: s in block ==> WellFormed(ctx, s)
    decreases |block|
  {
    if block == [] then (env, false)
    else
      var (env', change) := ExecuteStatement(ctx, env, block[0], widen);
      var (env'', change') := ExecuteBlock(ctx, env', block[1..], widen);
      (env'', change || change')
  }

  lemma {:induction false} BlockAscends(ctx: Context, all: seq<Stmt>, env: Env, block: seq<Stmt>, widen: bool)
    requires Ssa(ctx, all) && Good(ctx, all, env)
    requires forall s :: s in block ==> WellFormed(ctx, s) && (Assigned(s).Some? ==> s in all)
    ensures var (env', change) := ExecuteBlock(ctx, env, block, widen);
            && Ascends(ctx, all, env, env')
            && (change ==> Rank(all, env) < Rank(all, env'))
            && (!change ==> env' == env && forall s :: s in block ==> AtFixpoint(ctx, env, s))
    decreases |block|
  {
    if block != [] {
      var (env', change) := ExecuteStatement(ctx, env, block[0], widen);
      StatementAscends(ctx, all, env, block[0], widen);
      BlockAscends(ctx, all, env', block[1..], widen);
      AscendsTransitive(ctx, all, env, env', ExecuteBlock(ctx, env', block[1..], widen).0);
      assert forall s :: s in block <==> s == block[0] || s in block[1..];
    }
  }

  function Block(g: Graph, v: nat): seq<Stmt> {
    if v in g then g[v] else []
  }

  /** The vertices below an ordering. */
  ghost predicate Contains(o: Ordering, v: nat) {
    match o
    case Element(w) => v == w
    case Component(items) => exists i :: 0 <= i < |items| && Contains(items[i], v)
  }

  /** Every assignment below `o` belongs to the program. */
  ghost predicate Within(ctx: Context, g: Graph, o: Ordering, all: seq<Stmt>) {
    forall v :: Contains(o, v) ==>
      forall s :: s in Block(g, v) ==> WellFormed(ctx, s) && (Assigned(s).Some? ==> s in all)
  }

  /** Every statement below `o` is at its fixpoint. */
  ghost predicate Settled(ctx: Context, g: Graph, env: Env, o: Ordering) {
    forall w, s :: Contains(o, w) && s in Block(g, w) ==> WellFormed(ctx, s) && AtFixpoint(ctx, env, s)
  }

  /** The items of `o` from `i` on are at their fixpoints. */
  ghost predicate SettledFrom(ctx: Context, g: Graph, env: Env, o: Ordering, i: nat)
    requires o.Component? && i <= |o.items|
    decreases |o.items| - i
  {
    i < |o.items| ==> Settled(ctx, g, env, o.items[i]) && SettledFrom(ctx, g, env, o, i + 1)
  }

  lemma {:induction false} SettledAt(ctx: Context, g: Graph, env: Env, o: Ordering, i: nat, j: nat)
    requires o.Component? && i <= j < |o.items| && SettledFrom(ctx, g, env, o, i)
    ensures Settled(ctx, g, env, o.items[j])
    decreases j - i
  {
    if i < j { SettledAt(ctx, g, env, o, i + 1, j); }
  }

  predicate Flat(o: Ordering) {
    o.Component? ==> ElementsFrom(o.items, 0)
  }

  /** Only elements from position `i` on. */
  predicate ElementsFrom(items: seq<Ordering>, i: nat)
    requires i <= |items|
    decreases |items| - i
  {
    i < |items| ==> items[i].Element? && ElementsFrom(items, i + 1)
  }

  /** Everything the engine may assume about its input. */
  ghost predicate Analysable(ctx: Context, g: Graph, all: seq<Stmt>, o: Ordering) {
    Ssa(ctx, all) && Within(ctx, g, o, all)
  }

  lemma ItemAnalysable(ctx: Context, g: Graph, all: seq<Stmt>, o: Ordering, i: nat)
    requires o.Component? && i < |o.items| && Analysable(ctx, g, all, o)
    ensures Analysable(ctx, g, all, o.items[i])
  {
    forall v | Contains(o.items[i], v) ensures Contains(o, v) { }
  }

  /** The body of the `for x in h.iter()` loop: the environment and `stable` after item `i`. */
  ghost function RunItem(ctx: Context, g: Graph, all: seq<Stmt>, env: Env, o: Ordering, i: nat,
                         head: nat, iteration: nat, stable: bool): (r: (Env, bool))
    requires o.Component? && i < |o.items| && Analysable(ctx, g, all, o) && Good(ctx, all, env)
    ensures Ascends(ctx, all, env, r.0)
    ensures stable && !r.1 ==> Rank(all, env) < Rank(all, r.0)
    decreases o, 12 * |all| - Rank(all, env), 0, |o.items| - i, 0
  {
    ItemAnalysable(ctx, g, all, o, i);
    match o.items[i]
    case Element(v) =>
      assert Contains(o.items[i], v);
      var (env', change) := ExecuteBlock(ctx, env, Block(g, v), iteration >= 2 && v == head);
      BlockAscends(ctx, all, env, Block(g, v), iteration >= 2 && v == head);
      (env', stable && !change)
    case Component(_) => (Stabilize(ctx, g, all, env, o.items[i]).0, true)
  }

  /** One round of that loop from item `i` on. */
  ghost function Pass(ctx: Context, g: Graph, all: seq<Stmt>, env: Env, o: Ordering, i: nat,
                      head: nat, iteration: nat, stable: bool): (r: (Env, bool))
    requires o.Component? && i <= |o.items| && Analysable(ctx, g, all, o) && Good(ctx, all, env)
    ensures Ascends(ctx, all, env, r.0)
    ensures stable && !r.1 ==> Rank(all, env) < Rank(all, r.0)
    decreases o, 12 * |all| - Rank(all, env), 0, |o.items| - i, 1
  {
    if i == |o.items| then (env, stable)
    else
      var (env', stable') := RunItem(ctx, g, all, env, o, i, head, iteration, stable);
      var r := Pass(ctx, g, all, env', o, i + 1, head, iteration, stable');
      AscendsTransitive(ctx, all, env, env', r.0);
      r
  }

  /** The outer `loop`, with the number of passes it takes. */
  ghost function Iterate(ctx: Context, g: Graph, all: seq<Stmt>, env: Env, o: Ordering,
                         head: nat, iteration: nat): (r: (Env, nat))
    requires o.Component? && Analysable(ctx, g, all, o) && Good(ctx, all, env)
    ensures Ascends(ctx, all, env, r.0)
    ensures r.1 <= 12 * |all| - Rank(all, env) + 1
    decreases o, 12 * |all| - Rank(all, env), 1
  {
    var (env', stable) := Pass(ctx, g, all, env, o, 0, head, iteration, true);
    if stable then (env', 1)
    else
      var r := Iterate(ctx, g, all, env', o, head, iteration + 1);
      AscendsTransitive(ctx, all, env, env', r.0);
      (r.0, r.1 + 1)
  }

  /** `stabilize`, with the number of passes of its own loop. A component whose first item is again
    a component is replaced by that item. */
  ghost function Stabilize(ctx: Context, g: Graph, all: seq<Stmt>, env: Env, o: Ordering): (r: (Env, nat))
    requires o.Component? && Analysable(ctx, g, all, o) && Good(ctx, all, env)
    ensures Ascends(ctx, all, env, r.0)
    ensures r.1 <= 12 * |all| + 1
    decreases o, 12 * |all| + 1
  {
    if o.items == [] then (env, 0)
    else
      ItemAnalysable(ctx, g, all, o, 0);
      match o.items[0]
      case Element(head) => Iterate(ctx, g, all, env, o, head, 0)
      case Component(_) => Stabilize(ctx, g, all, env, o.items[0])
  }

  // ----- Flat components: the least fixpoint -----

  /** The component consists of elements only and together they hold the whole program. */
  ghost predicate FlatProgram(ctx: Context, g: Graph, all: seq<Stmt>, o: Ordering) {
    && o.Component? && Flat(o) && Analysable(ctx, g, all, o)
    && forall k :: 0 <= k < |all| ==>
         exists i :: 0 <= i < |o.items| && o.items[i].Element? && all[k] in Block(g, o.items[i].vertex)
  }

  /** If only elements are left in a pass and it reports no change, then everything stayed as it was,
    at a fixpoint. */
  lemma {:induction false} StablePass(ctx: Context, g: Graph, all: seq<Stmt>, env: Env, o: Ordering, i: nat,
                                      head: nat, iteration: nat, stable: bool, r: (Env, bool))
    requires o.Component? && i <= |o.items| && Analysable(ctx, g, all, o) && Good(ctx, all, env)
    requires ElementsFrom(o.items, i)
    requires r == Pass(ctx, g, all, env, o, i, head, iteration, stable) && r.1
    ensures stable && r.0 == env && SettledFrom(ctx, g, env, o, i)
    decreases |o.items| - i
  {
    if i < |o.items| {
      var (env', stable') := RunItem(ctx, g, all, env, o, i, head, iteration, stable);
      StablePass(ctx, g, all, env', o, i + 1, head, iteration, stable', r);
      ElementSettled(ctx, g, all, env, o, i, head, iteration, stable);
    }
  }

  lemma ElementSettled(ctx: Context, g: Graph, all: seq<Stmt>, env: Env, o: Ordering, i: nat,
                       head: nat, iteration: nat, stable: bool)
    requires o.Component? && i < |o.items| && Analysable(ctx, g, all, o) && Good(ctx, all, env)
    requires o.items[i].Element? && RunItem(ctx, g, all, env, o, i, head, iteration, stable).1
    ensures stable && RunItem(ctx, g, all, env, o, i, head, iteration, stable).0 == env
    ensures Settled(ctx, g, env, o.items[i])
  {
    ItemAnalysable(ctx, g, all, o, i);
    var v := o.items[i].vertex;
    assert Contains(o.items[i], v);
    BlockAscends(ctx, all, env, Block(g, v), iteration >= 2 && v == head);
  }

  lemma {:induction false} FlatIterate(ctx: Context, g: Graph, all: seq<Stmt>, env: Env, o: Ordering,
                                       head: nat, iteration: nat)
    requires FlatProgram(ctx, g, all, o) && Good(ctx, all, env)
    ensures Fixpoint(ctx, all, Iterate(ctx, g, all, env, o, head, iteration).0)
    decreases 12 * |all| - Rank(all, env)
  {
    var (env', stable) := Pass(ctx, g, all, env, o, 0, head, iteration, true);
    if stable {
      StablePass(ctx, g, all, env, o, 0, head, iteration, true, (env', stable));
      forall k | 0 <= k < |all| ensures AtFixpoint(ctx, env, all[k]) {
        var i :| 0 <= i < |o.items| && o.items[i].Element? && all[k] in Block(g, o.items[i].vertex);
        SettledAt(ctx, g, env, o, 0, i);
        assert Contains(o.items[i], o.items[i].vertex);
      }
    } else {
      FlatIterate(ctx, g, all, env', o, head, iteration + 1);
    }
  }

  lemma EmptyGood(ctx: Context, all: seq<Stmt>)
    requires Ssa(ctx, all)
    ensures Good(ctx, all, map[])
  {
  }

  /** `env` is a fixpoint of all transfer functions and lies below every post-fixpoint. */
  ghost predicate LeastFixpoint(ctx: Context, all: seq<Stmt>, env: Env)
    requires Ssa(ctx, all)
  {
    && Good(ctx, all, env)
    && Fixpoint(ctx, all, env)
    && forall p :: PostFixpoint(ctx, all, p) ==> EnvLeq(env, p)
  }

  /** On a flat component the engine computes the least fixpoint, within 12 passes per variable and
    one to notice. */
  lemma StabilizeIsLeastFixpoint(ctx: Context, g: Graph, all: seq<Stmt>, o: Ordering)
    requires FlatProgram(ctx, g, all, o)
    ensures Good(ctx, all, map[])
    ensures LeastFixpoint(ctx, all, Stabilize(ctx, g, all, map[], o).0)
    ensures Stabilize(ctx, g, all, map[], o).1 <= 12 * |all| + 1
  {
    EmptyGood(ctx, all);
    if o.items != [] { FlatIterate(ctx, g, all, map[], o, o.items[0].vertex, 0); }
  }

  lemma FixpointIsPostFixpoint(ctx: Context, all: seq<Stmt>, env: Env)
    requires Ssa(ctx, all) && Good(ctx, all, env) && Fixpoint(ctx, all, env)
    ensures PostFixpoint(ctx, all, env)
  {
    forall i | 0 <= i < |all| ensures Leq(Transfer(ctx, env, all[i]), Look(env, Assigned(all[i]).value)) {
      assert AtFixpoint(ctx, env, all[i]);
    }
  }

  /** There is only one least fixpoint, also as a map. */
  lemma LeastFixpointUnique(ctx: Context, all: seq<Stmt>, e: Env, e': Env)
    requires Ssa(ctx, all) && LeastFixpoint(ctx, all, e) && LeastFixpoint(ctx, all, e')
    ensures e == e'
  {
    FixpointIsPostFixpoint(ctx, all, e);
    FixpointIsPostFixpoint(ctx, all, e');
    forall v ensures (v in e <==> v in e') && Look(e, v) == Look(e', v) {
      assert Leq(Look(e, v), Look(e', v)) && Leq(Look(e', v), Look(e, v));
      LeqAntisymmetric(Look(e, v), Look(e', v));
      if v in e {
        var i :| 0 <= i < |all| && Assigned(all[i]) == Some(v);
        assert AtFixpoint(ctx, e', all[i]);
      }
      if v in e' {
        var i :| 0 <= i < |all| && Assigned(all[i]) == Some(v);
        assert AtFixpoint(ctx, e, all[i]);
      }
    }
    forall v | v in e ensures e[v] == e'[v] { assert e[v] == Look(e, v) && e'[v] == Look(e', v); }
  }

  /** The result does not depend on the order of the elements, nor on which one is the head. */
  lemma OrderIndependent(ctx: Context, g: Graph, all: seq<Stmt>, o: Ordering, o': Ordering)
    requires FlatProgram(ctx, g, all, o) && FlatProgram(ctx, g, all, o')
    ensures Good(ctx, all, map[])
    ensures Stabilize(ctx, g, all, map[], o).0 == Stabilize(ctx, g, all, map[], o').0
  {
    StabilizeIsLeastFixpoint(ctx, g, all, o);
    StabilizeIsLeastFixpoint(ctx, g, all, o');
    LeastFixpointUnique(ctx, all, Stabilize(ctx, g, all, map[], o).0, Stabilize(ctx, g, all, map[], o').0);
  }

  // ----- Concrete runs -----

  /** The constants currently held by SSA variables; a variable without entry is undefined. */
  type State = map<Var, Const>

  function Read(c: State, rv: Rvalue<string>): Option<Const> {
    match rv
    case Variable(name, Some(k), _, _) => if Var(name, k) in c then Some(c[Var(name, k)]) else None
    case Constant(k) => Some(Const(if k.size < 64 then Bits.Low(k.value, k.size) else k.value, k.size))
    case _ => None
  }

  /** `op` can yield `r` in state `c`. An undefined operand makes the result undefined; a Phi yields
    the operand of the edge control came from. */
  ghost predicate Yields(sem: Semantics, c: State, op: Operation<Rvalue<string>>, r: Option<Const>) {
    match op
    case Binary(o, a, b) =>
      if Read(c, a).Some? && Read(c, b).Some?
      then r == sem.binary(o, Read(c, a).value, Read(c, b).value)
      else r == None
    case Unary(o, a) => if Read(c, a).Some? then r == sem.unary(o, Read(c, a).value) else r == None
    case Initialize(_, _) => r == None
    case Phi(args) => exists i :: 0 <= i < |args| && r == Read(c, args[i])
  }

  ghost predicate ConcreteStep(sem: Semantics, c: State, s: Stmt, c': State) {
    match Assigned(s)
    case None => c' == c
    case Some(v) =>
      || (c' == c - {v} && Yields(sem, c, s.op, None))
      || (v in c' && c' == c[v := c'[v]] && Yields(sem, c, s.op, Some(c'[v])))
  }

  /** Fixed variables hold what the caller promised. */
  ghost predicate Promised(ctx: Context, c: State) {
    forall v :: v in c && v in ctx.fixed ==> Denotes(ctx.fixed[v], c[v])
  }

  /** Every other variable holds a value its abstract value denotes. */
  ghost predicate Covered(ctx: Context, env: Env, c: State) {
    forall v :: v in c && v !in ctx.fixed ==> Denotes(Look(env, v), c[v])
  }

  /** `states` arises by executing the statements of `trace` in turn. Any statement of the program
    may follow any other, so every path of every length through the component is included. */
  ghost predicate Run(ctx: Context, all: seq<Stmt>, trace: seq<Stmt>, states: seq<State>) {
    && |states| == |trace| + 1
    && (forall i :: 0 <= i < |trace| ==> trace[i] in all)
    && (forall i :: 0 <= i < |trace| ==> ConcreteStep(ctx.sem, states[i], trace[i], states[i + 1]))
    && (forall i :: 0 <= i < |states| ==> Promised(ctx, states[i]))
  }

  lemma ReadSound(ctx: Context, env: Env, c: State, rv: Rvalue<string>)
    requires FullWidth(ctx, rv) && Proper(ctx, env) && Covered(ctx, env, c) && Promised(ctx, c) && Read(c, rv).Some?
    ensures Denotes(Resolve(ctx, env, rv), Read(c, rv).value)
  {
    hide Bits.Low;
    AbstractValueIs(rv);
  }

  lemma PermuteSound(a: Kset, b: Kset, f: (Const, Const) -> Option<Const>, x: Const, y: Const)
    requires Denotes(a, x) && Denotes(b, y) && f(x, y).Some?
    ensures Denotes(Permute(a, b, f), f(x, y).value)
  {
    if a.Set? && b.Set? {
      var k := FromSet(Image2(a.elems, b.elems, f));
      assert f(x, y).value in Image2(a.elems, b.elems, f);
      if k.Set? { assert f(x, y).value in Elems(k.elems); }
    }
  }

  lemma MapSound(a: Kset, f: Const -> Option<Const>, x: Const)
    requires Denotes(a, x) && f(x).Some?
    ensures Denotes(MapKset(a, f), f(x).value)
  {
    if a.Set? {
      var k := FromSet(Image1(a.elems, f));
      assert f(x).value in Image1(a.elems, f);
      if k.Set? { assert f(x).value in Elems(k.elems); }
    }
  }

  /** Abstract execution covers concrete execution. */
  lemma TransferSound(ctx: Context, env: Env, c: State, s: Stmt, r: Const)
    requires WellFormed(ctx, s) && Proper(ctx, env) && CanonicalEnv(ctx.fixed)
    requires Covered(ctx, env, c) && Promised(ctx, c) && Yields(ctx.sem, c, s.op, Some(r))
    ensures Denotes(Transfer(ctx, env, s), r)
  {
    var ops := Operands(s.op);
    match s.op {
      case Binary(o, a, b) =>
        assert ops[0] == a && ops[1] == b;
        ReadSound(ctx, env, c, a);
        ReadSound(ctx, env, c, b);
        PermuteSound(Resolve(ctx, env, a), Resolve(ctx, env, b), (x, y) => ctx.sem.binary(o, x, y),
                     Read(c, a).value, Read(c, b).value);
      case Unary(o, a) =>
        assert ops[0] == a;
        ReadSound(ctx, env, c, a);
        MapSound(Resolve(ctx, env, a), x => ctx.sem.unary(o, x), Read(c, a).value);
      case Phi(args) =>
        var i :| 0 <= i < |args| && Some(r) == Read(c, args[i]);
        assert ops[i] == args[i];
        ReadSound(ctx, env, c, args[i]);
        AbstractedMonotone(ctx, env, env, s);
        var xs := Abstracted(ctx, env, s.op).args;
        PhiIsLub(ctx.sem, xs, Meet);
        DenotesUp(xs[i], Transfer(ctx, env, s), r);
    }
  }

  lemma DenotesUp(a: Kset, b: Kset, c: Const)
    requires Leq(a, b) && Denotes(a, c)
    ensures Denotes(b, c)
  {
    if a.Set? { assert c in Elems(a.elems); }
  }

  /** Soundness: along every run, each value assigned to a variable is denoted by that variable's
    entry in the fixpoint, and so is every value a variable holds. */
  lemma {:induction false} Soundness(ctx: Context, all: seq<Stmt>, env: Env, trace: seq<Stmt>, states: seq<State>)
    requires Ssa(ctx, all) && Proper(ctx, env) && Fixpoint(ctx, all, env)
    requires Run(ctx, all, trace, states) && Covered(ctx, env, states[0])
    ensures forall i :: 0 <= i < |states| ==> Covered(ctx, env, states[i])
    ensures forall i :: 0 <= i < |trace| ==>
              var v := Assigned(trace[i]).value;
              v in states[i + 1] ==> v in env && Denotes(env[v], states[i + 1][v])
    decreases |trace|
  {
    if trace != [] {
      var n := |trace| - 1;
      assert Run(ctx, all, trace[..n], states[..n + 1]);
      Soundness(ctx, all, env, trace[..n], states[..n + 1]);
      forall i | 0 <= i < n
        ensures var v := Assigned(trace[i]).value;
                v in states[i + 1] ==> v in env && Denotes(env[v], states[i + 1][v])
      {
        assert trace[..n][i] == trace[i] && states[..n + 1][i + 1] == states[i + 1];
      }
      forall i | 0 <= i <= n ensures Covered(ctx, env, states[i]) {
        assert states[..n + 1][i] == states[i];
      }
      StepSound(ctx, all, env, states[n], trace[n], states[n + 1]);
    }
  }

  lemma StepSound(ctx: Context, all: seq<Stmt>, env: Env, c: State, s: Stmt, c': State)
    requires Ssa(ctx, all) && Proper(ctx, env) && Fixpoint(ctx, all, env) && s in all
    requires Covered(ctx, env, c) && Promised(ctx, c) && ConcreteStep(ctx.sem, c, s, c')
    ensures Covered(ctx, env, c')
    ensures var v := Assigned(s).value; v in c' ==> v in env && Denotes(env[v], c'[v])
  {
    var k :| 0 <= k < |all| && all[k] == s;
    assert AtFixpoint(ctx, env, all[k]);
    var v := Assigned(s).value;
    if v in c' { TransferSound(ctx, env, c, s, c'[v]); }
  }
}
