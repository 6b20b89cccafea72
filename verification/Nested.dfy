/** Nested components (abstract-interp/src/interpreter.rs:93-118).

  After an inner component the source sets `stable` back to true, so a change made earlier in the
  same pass is forgotten; and a component that starts with a component is reduced to that first
  item. Orderings on which this does no harm still give the least fixpoint; a loop around a loop
  need not. */
module Nested {
  import opened Il
  import opened KsetDomain
  import opened Interpreter

  // ----- Variables a statement or an ordering touches -----

  ghost predicate Uses(s: Stmt, v: Var) {
    exists i :: 0 <= i < |Operands(s.op)| && Operands(s.op)[i].Variable? &&
                Operands(s.op)[i].subscript == Some(v.subscript) && Operands(s.op)[i].name == v.name
  }

  ghost predicate BlockAssigns(block: seq<Stmt>, v: Var) {
    exists s :: s in block && Assigned(s) == Some(v)
  }

  ghost predicate Assigns(g: Graph, o: Ordering, v: Var) {
    exists w :: Contains(o, w) && BlockAssigns(Block(g, w), v)
  }

  ghost predicate Agree(e: Env, e': Env, v: Var) {
    (v in e <==> v in e') && Look(e, v) == Look(e', v)
  }

  lemma AgreeTransitive(e1: Env, e2: Env, e3: Env, v: Var)
    requires Agree(e1, e2, v) && Agree(e2, e3, v)
    ensures Agree(e1, e3, v)
  {
  }

  lemma TransferFrame(ctx: Context, e: Env, e': Env, s: Stmt)
    requires s.op.Phi? ==> s.op.args != []
    requires forall v :: Uses(s, v) ==> Agree(e, e', v)
    ensures Transfer(ctx, e, s) == Transfer(ctx, e', s)
  {
    var ops := Operands(s.op);
    forall i | 0 <= i < |ops| ensures Resolve(ctx, e, ops[i]) == Resolve(ctx, e', ops[i]) {
      if ops[i].Variable? && ops[i].subscript.Some? {
        assert Uses(s, Var(ops[i].name, ops[i].subscript.value));
      }
    }
    match s.op {
      case Binary(_, a, b) => assert ops[0] == a && ops[1] == b;
      case Unary(_, a) => assert ops[0] == a;
      case Initialize(_, _) =>
      case Phi(args) => assert Abstracted(ctx, e, s.op).args == Abstracted(ctx, e', s.op).args;
    }
  }

  // ----- Frames: nothing but the assigned variables changes -----

  lemma {:induction false} BlockFrame(ctx: Context, env: Env, block: seq<Stmt>, widen: bool, v: Var)
    requires forall s :: s in block ==> WellFormed(ctx, s)
    requires !BlockAssigns(block, v)
    ensures Agree(env, ExecuteBlock(ctx, env, block, widen).0, v)
    decreases |block|
  {
    if block != [] {
      assert block[0] in block;
      assert !BlockAssigns(block[1..], v);
      BlockFrame(ctx, ExecuteStatement(ctx, env, block[0], widen).0, block[1..], widen, v);
    }
  }

  lemma ItemAssigns(g: Graph, o: Ordering, i: nat, v: Var)
    requires o.Component? && i < |o.items| && !Assigns(g, o, v)
    ensures !Assigns(g, o.items[i], v)
  {
    forall w | Contains(o.items[i], w) ensures !BlockAssigns(Block(g, w), v) {
      assert Contains(o, w);
    }
  }

  /** No item from `i` on assigns `v`. */
  ghost predicate NotAssignedFrom(g: Graph, o: Ordering, i: nat, v: Var)
    requires o.Component? && i <= |o.items|
    decreases |o.items| - i
  {
    i < |o.items| ==> !Assigns(g, o.items[i], v) && NotAssignedFrom(g, o, i + 1, v)
  }

  lemma {:induction false} NoneAssigns(g: Graph, o: Ordering, i: nat, v: Var)
    requires o.Component? && i <= |o.items|
    requires forall j :: i <= j < |o.items| ==> !Assigns(g, o.items[j], v)
    ensures NotAssignedFrom(g, o, i, v)
    decreases |o.items| - i
  {
    if i < |o.items| { NoneAssigns(g, o, i + 1, v); }
  }

  lemma {:induction false} ItemFrame(ctx: Context, g: Graph, all: seq<Stmt>, env: Env, o: Ordering, i: nat,
                                     head: nat, iteration: nat, stable: bool, v: Var)
    requires o.Component? && i < |o.items| && Analysable(ctx, g, all, o) && Good(ctx, all, env)
    requires !Assigns(g, o.items[i], v)
    ensures Agree(env, RunItem(ctx, g, all, env, o, i, head, iteration, stable).0, v)
    decreases o, 12 * |all| - Rank(all, env), 0, |o.items| - i, 0
  {
    ItemAnalysable(ctx, g, all, o, i);
    match o.items[i]
    case Element(w) =>
      assert Contains(o.items[i], w);
      BlockFrame(ctx, env, Block(g, w), iteration >= 2 && w == head, v);
    case Component(_) =>
      StabilizeFrame(ctx, g, all, env, o.items[i], v);
  }

  lemma {:induction false} PassFrame(ctx: Context, g: Graph, all: seq<Stmt>, env: Env, o: Ordering, i: nat,
                                     head: nat, iteration: nat, stable: bool, r: (Env, bool), v: Var)
    requires o.Component? && i <= |o.items| && Analysable(ctx, g, all, o) && Good(ctx, all, env)
    requires NotAssignedFrom(g, o, i, v)
    requires r == Pass(ctx, g, all, env, o, i, head, iteration, stable)
    ensures Agree(env, r.0, v)
    decreases o, 12 * |all| - Rank(all, env), 0, |o.items| - i, 1
  {
    hide Good, Assigns;
    if i < |o.items| {
      var (env', stable') := RunItem(ctx, g, all, env, o, i, head, iteration, stable);
      ItemFrame(ctx, g, all, env, o, i, head, iteration, stable, v);
      PassFrame(ctx, g, all, env', o, i + 1, head, iteration, stable', r, v);
      AgreeTransitive(env, env', r.0, v);
    }
  }

  lemma {:induction false} IterateFrame(ctx: Context, g: Graph, all: seq<Stmt>, env: Env, o: Ordering,
                                        head: nat, iteration: nat, v: Var)
    requires o.Component? && Analysable(ctx, g, all, o) && Good(ctx, all, env)
    requires NotAssignedFrom(g, o, 0, v)
    ensures Agree(env, Iterate(ctx, g, all, env, o, head, iteration).0, v)
    decreases o, 12 * |all| - Rank(all, env), 1
  {
    var (env', stable) := Pass(ctx, g, all, env, o, 0, head, iteration, true);
    PassFrame(ctx, g, all, env, o, 0, head, iteration, true, (env', stable), v);
    if !stable { IterateFrame(ctx, g, all, env', o, head, iteration + 1, v); }
  }

  lemma {:induction false} StabilizeFrame(ctx: Context, g: Graph, all: seq<Stmt>, env: Env, o: Ordering, v: Var)
    requires o.Component? && Analysable(ctx, g, all, o) && Good(ctx, all, env) && !Assigns(g, o, v)
    ensures Agree(env, Stabilize(ctx, g, all, env, o).0, v)
    decreases o, 12 * |all| + 1
  {
    if o.items != [] {
      ItemAnalysable(ctx, g, all, o, 0);
      forall j | 0 <= j < |o.items| ensures !Assigns(g, o.items[j], v) { ItemAssigns(g, o, j, v); }
      NoneAssigns(g, o, 0, v);
      match o.items[0]
      case Element(head) => IterateFrame(ctx, g, all, env, o, head, 0, v);
      case Component(_) => StabilizeFrame(ctx, g, all, env, o.items[0], v);
    }
  }

  // ----- Orderings on which forgetting `stable` does no harm -----

  /** `s` neither reads nor assigns anything assigned below `o`. */
  ghost predicate Independent(g: Graph, s: Stmt, o: Ordering) {
    forall v :: Assigns(g, o, v) ==> !Uses(s, v) && Assigned(s) != Some(v)
  }

  /** No statement of the block reads or assigns what itself or a later one assigns. */
  ghost predicate StraightLine(block: seq<Stmt>) {
    forall p, q :: 0 <= p <= q < |block| && Assigned(block[q]).Some? ==>
      && !Uses(block[p], Assigned(block[q]).value)
      && (p < q ==> Assigned(block[p]) != Assigned(block[q]))
  }

  ghost predicate FollowedByComponent(items: seq<Ordering>, i: nat) {
    exists c :: i < c < |items| && items[c].Component?
  }

  lemma {:induction false} NotFollowed(items: seq<Ordering>, i: nat)
    requires i < |items| && !FollowedByComponent(items, i)
    ensures ElementsFrom(items, i + 1)
    decreases |items| - i
  {
    if i + 1 < |items| {
      assert items[i + 1].Element?;
      NotFollowed(items, i + 1);
    }
  }

  /** A change made by this item, or in front of it, can be forgotten. */
  ghost predicate Forgotten(items: seq<Ordering>, j: nat)
    requires j < |items|
  {
    items[j].Component? || FollowedByComponent(items, j)
  }

  /** Every list starts with an element, or is a single item. An element with a component behind it is
    straight-line code, and an item with a component behind it is independent of everything behind it up
    to the last component. It may depend on the elements behind that one: a loop head on its latch. */
  ghost predicate Settles(g: Graph, o: Ordering) {
    o.Component? ==>
      && (|o.items| > 1 ==> o.items[0].Element?)
      && (forall i :: 0 <= i < |o.items| ==> Settles(g, o.items[i]))
      && (forall i :: 0 <= i < |o.items| && FollowedByComponent(o.items, i) ==>
            && (o.items[i].Element? ==> StraightLine(Block(g, o.items[i].vertex)))
            && forall j, w, s :: i < j < |o.items| && Forgotten(o.items, j) &&
                                   Contains(o.items[i], w) && s in Block(g, w) ==>
                                   Independent(g, s, o.items[j]))
  }

  /** Executing straight-line code once settles it. */
  lemma {:induction false} StraightLineSettles(ctx: Context, all: seq<Stmt>, env: Env, block: seq<Stmt>, widen: bool)
    requires Ssa(ctx, all) && Good(ctx, all, env) && StraightLine(block)
    requires forall s :: s in block ==> WellFormed(ctx, s) && (Assigned(s).Some? ==> s in all)
    ensures forall s :: s in block ==> AtFixpoint(ctx, ExecuteBlock(ctx, env, block, widen).0, s)
    decreases |block|
  {
    if block != [] {
      var (env', change) := ExecuteStatement(ctx, env, block[0], widen);
      var env'' := ExecuteBlock(ctx, env', block[1..], widen).0;
      StatementAscends(ctx, all, env, block[0], widen);
      StraightLineSettles(ctx, all, env', block[1..], widen);
      FirstSettles(ctx, all, env, block, widen);
      assert forall s :: s in block ==> s == block[0] || s in block[1..];
    }
  }

  lemma FirstSettles(ctx: Context, all: seq<Stmt>, env: Env, block: seq<Stmt>, widen: bool)
    requires Ssa(ctx, all) && Good(ctx, all, env) && StraightLine(block) && block != []
    requires forall s :: s in block ==> WellFormed(ctx, s) && (Assigned(s).Some? ==> s in all)
    ensures AtFixpoint(ctx, ExecuteBlock(ctx, env, block, widen).0, block[0])
  {
    var s := block[0];
    if Assigned(s).Some? {
      var v := Assigned(s).value;
      var (env', change) := ExecuteStatement(ctx, env, s, widen);
      var env'' := ExecuteBlock(ctx, env', block[1..], widen).0;
      var k :| 0 <= k < |all| && all[k] == s;
      UpdateRules(ctx, all, env, k, widen);
      assert v in env' && env'[v] == Transfer(ctx, env, s);
      forall w | w == v || Uses(s, w) ensures Agree(env', env'', w) {
        forall t | t in block[1..] ensures Assigned(t) != Some(w) {
          var q :| 0 <= q < |block[1..]| && block[1..][q] == t;
          assert block[q + 1] == t;
        }
        BlockFrame(ctx, env', block[1..], widen, w);
      }
      forall w | Uses(s, w) ensures Agree(env, env'', w) {
        assert w != v;
      }
      TransferFrame(ctx, env, env'', s);
    }
  }

  lemma SettledFrame(ctx: Context, g: Graph, env: Env, env': Env, o: Ordering)
    requires Settled(ctx, g, env, o)
    requires forall w, s, v :: Contains(o, w) && s in Block(g, w) && (Uses(s, v) || Assigned(s) == Some(v)) ==>
               Agree(env, env', v)
    ensures Settled(ctx, g, env', o)
  {
    forall w, s | Contains(o, w) && s in Block(g, w)
      ensures WellFormed(ctx, s) && AtFixpoint(ctx, env', s)
    {
      assert AtFixpoint(ctx, env, s);
      TransferFrame(ctx, env, env', s);
      if Assigned(s).Some? { assert Agree(env, env', Assigned(s).value); }
    }
  }

  lemma {:induction false} PassSettles(ctx: Context, g: Graph, all: seq<Stmt>, env: Env, o: Ordering, i: nat,
                                       head: nat, iteration: nat, stable: bool, r: (Env, bool))
    requires o.Component? && i <= |o.items| && Analysable(ctx, g, all, o) && Good(ctx, all, env) && Settles(g, o)
    requires r == Pass(ctx, g, all, env, o, i, head, iteration, stable) && r.1
    ensures SettledFrom(ctx, g, r.0, o, i)
    decreases o, 12 * |all| - Rank(all, env), 0, |o.items| - i, 1
  {
    hide Good, Settles, Settled, FollowedByComponent;
    if i < |o.items| {
      if o.items[i].Element? && !FollowedByComponent(o.items, i) {
        NotFollowed(o.items, i);
        StablePass(ctx, g, all, env, o, i, head, iteration, stable, r);
      } else {
        var (env', stable') := RunItem(ctx, g, all, env, o, i, head, iteration, stable);
        ItemStaysSettled(ctx, g, all, env, o, i, head, iteration, stable, env', stable', r);
        PassSettles(ctx, g, all, env', o, i + 1, head, iteration, stable', r);
      }
    }
  }

  lemma {:induction false} ItemStaysSettled(ctx: Context, g: Graph, all: seq<Stmt>, env: Env, o: Ordering, i: nat,
                                            head: nat, iteration: nat, stable: bool,
                                            env': Env, stable': bool, r: (Env, bool))
    requires o.Component? && i < |o.items| && Analysable(ctx, g, all, o) && Good(ctx, all, env) && Settles(g, o)
    requires o.items[i].Element? ==> FollowedByComponent(o.items, i)
    requires (env', stable') == RunItem(ctx, g, all, env, o, i, head, iteration, stable)
    requires r == Pass(ctx, g, all, env', o, i + 1, head, iteration, stable') && r.1
    ensures Settled(ctx, g, r.0, o.items[i])
    decreases o, 12 * |all| - Rank(all, env), 0, |o.items| - i, 0, 1
  {
    ItemSettles(ctx, g, all, env, o, i, head, iteration, stable);
    if FollowedByComponent(o.items, i) {
      LaterItemsKeep(ctx, g, all, env', o, i, head, iteration, stable', r);
    } else {
      NotFollowed(o.items, i);
      StablePass(ctx, g, all, env', o, i + 1, head, iteration, stable', r);
    }
  }

  lemma {:induction false} ItemSettles(ctx: Context, g: Graph, all: seq<Stmt>, env: Env, o: Ordering, i: nat,
                                       head: nat, iteration: nat, stable: bool)
    requires o.Component? && i < |o.items| && Analysable(ctx, g, all, o) && Good(ctx, all, env) && Settles(g, o)
    requires o.items[i].Element? ==> FollowedByComponent(o.items, i)
    ensures Settled(ctx, g, RunItem(ctx, g, all, env, o, i, head, iteration, stable).0, o.items[i])
    decreases o, 12 * |all| - Rank(all, env), 0, |o.items| - i, 0, 0
  {
    ItemAnalysable(ctx, g, all, o, i);
    match o.items[i]
    case Element(v) =>
      assert Contains(o.items[i], v);
      StraightLineSettles(ctx, all, env, Block(g, v), iteration >= 2 && v == head);
    case Component(_) =>
      StabilizeSettles(ctx, g, all, env, o.items[i]);
  }

  lemma LaterItemsKeep(ctx: Context, g: Graph, all: seq<Stmt>, env: Env, o: Ordering, i: nat,
                       head: nat, iteration: nat, stable: bool, r: (Env, bool))
    requires o.Component? && i < |o.items| && Analysable(ctx, g, all, o) && Good(ctx, all, env) && Settles(g, o)
    requires FollowedByComponent(o.items, i) && Settled(ctx, g, env, o.items[i])
    requires r == Pass(ctx, g, all, env, o, i + 1, head, iteration, stable) && r.1
    ensures Settled(ctx, g, r.0, o.items[i])
  {
    hide Good, Settles, Settled, FollowedByComponent, Agree;
    forall w, s, v | Contains(o.items[i], w) && s in Block(g, w) && (Uses(s, v) || Assigned(s) == Some(v))
      ensures Agree(env, r.0, v)
    {
      LaterItemsMiss(g, o, i, w, s, v);
      PassKeeps(ctx, g, all, env, o, i + 1, head, iteration, stable, r, v);
    }
    SettledFrame(ctx, g, env, r.0, o.items[i]);
  }

  lemma LaterItemsMiss(g: Graph, o: Ordering, i: nat, w: nat, s: Stmt, v: Var)
    requires o.Component? && i < |o.items| && Settles(g, o) && FollowedByComponent(o.items, i)
    requires Contains(o.items[i], w) && s in Block(g, w) && (Uses(s, v) || Assigned(s) == Some(v))
    ensures MissedFrom(g, o, i + 1, v)
  {
    hide Contains, Uses, Block;
    forall j | i < j < |o.items| && Forgotten(o.items, j) ensures !Assigns(g, o.items[j], v) {
      assert Independent(g, s, o.items[j]);
    }
    NoneMisses(g, o, i + 1, v);
  }

  /** No item from `i` on up to the last component assigns `v`. */
  ghost predicate MissedFrom(g: Graph, o: Ordering, i: nat, v: Var)
    requires o.Component? && i <= |o.items|
    decreases |o.items| - i
  {
    i < |o.items| && Forgotten(o.items, i) ==> !Assigns(g, o.items[i], v) && MissedFrom(g, o, i + 1, v)
  }

  lemma {:induction false} NoneMisses(g: Graph, o: Ordering, i: nat, v: Var)
    requires o.Component? && i <= |o.items|
    requires forall j :: i <= j < |o.items| && Forgotten(o.items, j) ==> !Assigns(g, o.items[j], v)
    ensures MissedFrom(g, o, i, v)
    decreases |o.items| - i
  {
    if i < |o.items| { NoneMisses(g, o, i + 1, v); }
  }

  lemma {:induction false} ElementsBehind(items: seq<Ordering>, i: nat)
    requires i < |items| && !Forgotten(items, i)
    ensures ElementsFrom(items, i)
  {
    NotFollowed(items, i);
  }

  /** A pass that ends stable keeps such a variable: the items up to the last component do not assign it,
    and the elements behind that changed nothing. */
  lemma {:induction false} PassKeeps(ctx: Context, g: Graph, all: seq<Stmt>, env: Env, o: Ordering, i: nat,
                                     head: nat, iteration: nat, stable: bool, r: (Env, bool), v: Var)
    requires o.Component? && i <= |o.items| && Analysable(ctx, g, all, o) && Good(ctx, all, env)
    requires MissedFrom(g, o, i, v)
    requires r == Pass(ctx, g, all, env, o, i, head, iteration, stable) && r.1
    ensures Agree(env, r.0, v)
    decreases |o.items| - i
  {
    hide Good, Assigns, Forgotten;
    if i < |o.items| {
      if Forgotten(o.items, i) {
        var (env', stable') := RunItem(ctx, g, all, env, o, i, head, iteration, stable);
        ItemFrame(ctx, g, all, env, o, i, head, iteration, stable, v);
        PassKeeps(ctx, g, all, env', o, i + 1, head, iteration, stable', r, v);
        AgreeTransitive(env, env', r.0, v);
      } else {
        ElementsBehind(o.items, i);
        StablePass(ctx, g, all, env, o, i, head, iteration, stable, r);
      }
    }
  }

  lemma {:induction false} IterateSettles(ctx: Context, g: Graph, all: seq<Stmt>, env: Env, o: Ordering,
                                          head: nat, iteration: nat)
    requires o.Component? && Analysable(ctx, g, all, o) && Good(ctx, all, env) && Settles(g, o)
    ensures Settled(ctx, g, Iterate(ctx, g, all, env, o, head, iteration).0, o)
    decreases o, 12 * |all| - Rank(all, env), 1
  {
    var (env', stable) := Pass(ctx, g, all, env, o, 0, head, iteration, true);
    if stable {
      PassSettles(ctx, g, all, env, o, 0, head, iteration, true, (env', stable));
      forall w, s | Contains(o, w) && s in Block(g, w) ensures WellFormed(ctx, s) && AtFixpoint(ctx, env', s) {
        var j :| 0 <= j < |o.items| && Contains(o.items[j], w);
        SettledAt(ctx, g, env', o, 0, j);
      }
    } else {
      IterateSettles(ctx, g, all, env', o, head, iteration + 1);
    }
  }

  lemma {:induction false} StabilizeSettles(ctx: Context, g: Graph, all: seq<Stmt>, env: Env, o: Ordering)
    requires o.Component? && Analysable(ctx, g, all, o) && Good(ctx, all, env) && Settles(g, o)
    ensures Settled(ctx, g, Stabilize(ctx, g, all, env, o).0, o)
    decreases o, 12 * |all| + 1
  {
    if o.items != [] {
      ItemAnalysable(ctx, g, all, o, 0);
      match o.items[0]
      case Element(head) => IterateSettles(ctx, g, all, env, o, head, 0);
      case Component(_) =>
        StabilizeSettles(ctx, g, all, env, o.items[0]);
        var r := Stabilize(ctx, g, all, env, o).0;
        forall w, s | Contains(o, w) && s in Block(g, w) ensures WellFormed(ctx, s) && AtFixpoint(ctx, r, s) {
          assert Contains(o.items[0], w);
        }
    }
  }

  /** The ordering holds the whole program. */
  ghost predicate Complete(ctx: Context, g: Graph, all: seq<Stmt>, o: Ordering) {
    && o.Component? && Analysable(ctx, g, all, o)
    && forall k :: 0 <= k < |all| ==> exists w :: Contains(o, w) && all[k] in Block(g, w)
  }

  /** Under `Settles` the analysis yields the least fixpoint, whether loops follow each other or nest. */
  lemma SettlingIsLeastFixpoint(ctx: Context, g: Graph, all: seq<Stmt>, o: Ordering)
    requires Complete(ctx, g, all, o) && Settles(g, o)
    ensures Good(ctx, all, map[])
    ensures LeastFixpoint(ctx, all, Stabilize(ctx, g, all, map[], o).0)
  {
    EmptyGood(ctx, all);
    StabilizeSettles(ctx, g, all, map[], o);
    var env := Stabilize(ctx, g, all, map[], o).0;
    forall k | 0 <= k < |all| ensures AtFixpoint(ctx, env, all[k]) {
      var w :| Contains(o, w) && all[k] in Block(g, w);
    }
  }

  /** A pass whose last item is a component always reports stability. */
  lemma {:induction false} LastComponentStable(ctx: Context, g: Graph, all: seq<Stmt>, env: Env, o: Ordering, i: nat,
                                               head: nat, iteration: nat, stable: bool)
    requires o.Component? && i < |o.items| && o.items[|o.items| - 1].Component?
    requires Analysable(ctx, g, all, o) && Good(ctx, all, env)
    ensures Pass(ctx, g, all, env, o, i, head, iteration, stable).1
    decreases |o.items| - i
  {
    hide Good, Analysable;
    var (env', stable') := RunItem(ctx, g, all, env, o, i, head, iteration, stable);
    if i + 1 < |o.items| { LastComponentStable(ctx, g, all, env', o, i + 1, head, iteration, stable'); }
  }

  /** A component that starts with an element and ends with a component makes exactly one pass, whatever its
    statements are. */
  lemma OnePassOnly(ctx: Context, g: Graph, all: seq<Stmt>, env: Env, o: Ordering)
    requires o.Component? && |o.items| > 0 && o.items[0].Element? && o.items[|o.items| - 1].Component?
    requires Analysable(ctx, g, all, o) && Good(ctx, all, env)
    ensures Stabilize(ctx, g, all, env, o).1 == 1
  {
    hide Good, Analysable;
    LastComponentStable(ctx, g, all, env, o, 0, o.items[0].vertex, 0, true);
  }

  /** The items behind a leading component are never executed: what only they assign has no value at the
    end, so the result is no fixpoint of their statements. */
  lemma LeadingComponentHidesRest(ctx: Context, g: Graph, all: seq<Stmt>, o: Ordering, j: nat, w: nat, s: Stmt)
    requires o.Component? && Analysable(ctx, g, all, o) && 0 < j < |o.items| && o.items[0].Component?
    requires Contains(o.items[j], w) && s in Block(g, w) && Assigned(s).Some?
    requires !Assigns(g, o.items[0], Assigned(s).value)
    ensures Good(ctx, all, map[]) && WellFormed(ctx, s)
    ensures var env := Stabilize(ctx, g, all, map[], o).0; Assigned(s).value !in env && !AtFixpoint(ctx, env, s)
  {
    EmptyGood(ctx, all);
    assert Contains(o, w);
    ItemAnalysable(ctx, g, all, o, 0);
    StabilizeFrame(ctx, g, all, map[], o.items[0], Assigned(s).value);
  }

  /** The whole analysis is sound for such functions: started without values for anything but the
    fixed variables, no run of any length assigns a value that the result does not denote. */
  lemma AnalysisSound(ctx: Context, g: Graph, all: seq<Stmt>, o: Ordering, trace: seq<Stmt>, states: seq<State>)
    requires Complete(ctx, g, all, o) && Settles(g, o)
    requires Run(ctx, all, trace, states) && states[0].Keys <= ctx.fixed.Keys
    ensures Good(ctx, all, map[])
    ensures var env := Stabilize(ctx, g, all, map[], o).0;
            forall i :: 0 <= i < |trace| ==>
              var v := Assigned(trace[i]).value;
              v in states[i + 1] ==> v in env && Denotes(env[v], states[i + 1][v])
  {
    SettlingIsLeastFixpoint(ctx, g, all, o);
    Soundness(ctx, all, Stabilize(ctx, g, all, map[], o).0, trace, states);
  }
}
