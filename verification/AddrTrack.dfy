/** The Bounded Address Tracking domain (abstract-interp/src/bounded_addr_track.rs). */
module AddrTrack {
  import opened Il
  import Bits
  import Rreil

  const VERSION_LIMIT: nat := 10

  /** Name and version; None is the global region. */
  type RegionName = Option<(string, nat)>

  datatype Track =
    | Join
    | InRegion(region: RegionName)
    | Offset(region: RegionName, at: Const)
    | Meet

  // ----- The lattice -----

  /** Meet below offsets, offsets below their region, regions below Join. */
  predicate Leq(x: Track, y: Track) {
    x == y || x.Meet? || y.Join? || (x.Offset? && y.InRegion? && x.region == y.region)
  }

  function Combine(x: Track, y: Track): Track {
    if x == y then y
    else if x.Join? || y.Join? then Join
    else if x.Meet? then y
    else if y.Meet? then x
    else if x.region == y.region then InRegion(x.region)
    else Join
  }

  /** The fold of Phi from Meet. */
  function CombineAll(xs: seq<Track>): Track {
    if xs == [] then Meet else Combine(CombineAll(xs[..|xs| - 1]), xs[|xs| - 1])
  }

  lemma LeqIsOrder(x: Track, y: Track, z: Track)
    ensures Leq(x, x) && (Leq(x, y) && Leq(y, x) ==> x == y) && (Leq(x, y) && Leq(y, z) ==> Leq(x, z))
  {
  }

  lemma CombineIsLub(x: Track, y: Track, z: Track)
    ensures Leq(Combine(x, y), z) <==> Leq(x, z) && Leq(y, z)
  {
  }

  /** Phi computes the least upper bound of its operands, so their order and repetition do not matter. */
  lemma {:induction false} PhiIsLub(xs: seq<Track>, z: Track)
    ensures Leq(CombineAll(xs), z) <==> forall x :: x in xs ==> Leq(x, z)
  {
    if xs != [] {
      var init, last := xs[..|xs| - 1], xs[|xs| - 1];
      PhiIsLub(init, z);
      CombineIsLub(CombineAll(init), last, z);
      assert xs == init + [last];
    }
  }

  lemma PhiIgnoresOrder(xs: seq<Track>, ys: seq<Track>)
    requires forall x :: x in xs <==> x in ys
    ensures CombineAll(xs) == CombineAll(ys)
  {
    var a, b := CombineAll(xs), CombineAll(ys);
    PhiIsLub(xs, a);
    PhiIsLub(xs, b);
    PhiIsLub(ys, a);
    PhiIsLub(ys, b);
    LeqIsOrder(a, b, a);
  }

  // ----- Execution -----

  function Lifted(region: RegionName, r: Option<Const>): Track {
    match r case Some(c) => Offset(region, c) case None => Join
  }

  /** `addrtrack_op!`: a region gets a new version, up to the limit. */
  function Versioned(r1: RegionName, r2: RegionName, r: Option<Const>): Track {
    if r1.None? && r2.None? then Join
    else
      var (name, version) := if r1.Some? then r1.value else r2.value;
      if version < VERSION_LIMIT then Lifted(Some((name, version + 1)), r) else Join
  }

  function ExecuteBinary(sem: Semantics, op: BinaryOp, x: Track, y: Track): Track {
    if !x.Offset? || !y.Offset? || op.Store? then Join
    else
      var r := sem.binary(op, x.at, y.at);
      if x.region.None? && y.region.None? then Lifted(None, r)
      else if op.Select? then Join
      else if op.Add? then Lifted(if x.region.Some? then x.region else y.region, r)
      else Versioned(x.region, y.region, r)
  }

  function ExecuteUnary(sem: Semantics, op: UnaryOp, x: Track): Track {
    if op.Move? then x
    else if (op.ZeroExtend? || op.SignExtend?) && x.Offset? then Lifted(x.region, sem.unary(op, x.at))
    else Join
  }

  function Execute(sem: Semantics, op: Operation<Track>): Track
    requires op.Phi? ==> op.args != []
  {
    match op
    case Binary(bop, x, y) => ExecuteBinary(sem, bop, x, y)
    case Unary(uop, x) => ExecuteUnary(sem, uop, x)
    case Initialize(_, _) => Join
    case Phi(args) => if |args| == 1 then args[0] else CombineAll(args)
  }

  // ----- Versions stay bounded -----

  predicate Bounded(x: Track) {
    (x.InRegion? || x.Offset?) && x.region.Some? ==> x.region.value.1 <= VERSION_LIMIT
  }

  lemma {:induction false} PhiBounded(xs: seq<Track>)
    requires forall x :: x in xs ==> Bounded(x)
    ensures Bounded(CombineAll(xs))
  {
    if xs != [] { PhiBounded(xs[..|xs| - 1]); }
  }

  /** An operand: a constant or a variable. */
  datatype Arg = Known(c: Const) | Ref(name: string)

  datatype Assignment = Assignment(name: string, op: Operation<Arg>)

  type Env = map<string, Track>

  function Value(env: Env, a: Arg): Track {
    match a
    case Known(c) => Offset(None, c)
    case Ref(n) => if n in env then env[n] else Meet
  }

  function Values(env: Env, args: seq<Arg>): (r: seq<Track>)
    ensures |r| == |args|
  {
    seq(|args|, i requires 0 <= i < |args| => Value(env, args[i]))
  }

  function Abstract(env: Env, op: Operation<Arg>): Operation<Track> {
    match op
    case Binary(o, a, b) => Binary(o, Value(env, a), Value(env, b))
    case Unary(o, a) => Unary(o, Value(env, a))
    case Initialize(g, n) => Initialize(g, n)
    case Phi(args) => Phi(Values(env, args))
  }

  /** The assignments executed one after the other; loops simply repeat them. */
  function Run(sem: Semantics, env: Env, run: seq<Assignment>): Env
    requires forall s :: s in run ==> (s.op.Phi? ==> s.op.args != [])
    decreases |run|
  {
    if run == [] then env
    else
      var s := run[0];
      assert s in run;
      Run(sem, env[s.name := Execute(sem, Abstract(env, s.op))], run[1..])
  }

  lemma StepBounded(sem: Semantics, op: Operation<Track>)
    requires op.Phi? ==> op.args != []
    requires match op
             case Binary(_, x, y) => Bounded(x) && Bounded(y)
             case Unary(_, x) => Bounded(x)
             case Initialize(_, _) => true
             case Phi(args) => forall x :: x in args ==> Bounded(x)
    ensures Bounded(Execute(sem, op))
  {
    if op.Phi? { PhiBounded(op.args); }
  }

  ghost predicate AllBounded(env: Env) {
    forall n :: n in env ==> Bounded(env[n])
  }

  /** No run, of any length along any path, creates a region version above the limit. */
  lemma {:induction false} VersionsBounded(sem: Semantics, env: Env, run: seq<Assignment>)
    requires forall s :: s in run ==> (s.op.Phi? ==> s.op.args != [])
    requires AllBounded(env)
    ensures AllBounded(Run(sem, env, run))
    decreases |run|
  {
    if run != [] {
      var s := run[0];
      assert s in run;
      StepBounded(sem, Abstract(env, s.op));
      var env1 := env[s.name := Execute(sem, Abstract(env, s.op))];
      VersionsBounded(sem, env1, run[1..]);
      assert Run(sem, env, run) == Run(sem, env1, run[1..]);
    }
  }

  // ----- The engine's update rule -----

  predicate MoreExact(x: Track, y: Track) {
    if x == y then false
    else
      match (x, y)
      case (Join, _) => false
      case (_, Join) => true
      case (_, Meet) => false
      case (Meet, _) => true
      case (InRegion(_), Offset(_, _)) => false
      case (Offset(_, _), InRegion(_)) => true
      case (InRegion(_), InRegion(_)) => false
      case (Offset(_, _), Offset(_, _)) => false
  }

  /** What the engine stores when a variable that has a value gets a new one, away from a loop head. */
  function Updated(cur: Track, next: Track): Track {
    if !MoreExact(cur, next) && cur != next then next else cur
  }

  /** The four levels of the lattice. */
  function Level(x: Track): nat {
    match x
    case Meet => 0
    case Offset(_, _) => 1
    case InRegion(_) => 2
    case Join => 3
  }

  /** The stored value covers the new one iff that does not climb: a value strictly above is dropped. */
  lemma UpdateCoversIff(cur: Track, next: Track)
    ensures Leq(next, Updated(cur, next)) <==> Level(next) <= Level(cur)
    ensures Leq(cur, next) ==> Updated(cur, next) == cur
  {
  }

  /** Executes an assignment as the engine does. */
  function Store(sem: Semantics, env: Env, s: Assignment): Env
    requires s.op.Phi? ==> s.op.args != []
  {
    var next := Execute(sem, Abstract(env, s.op));
    env[s.name := if s.name in env then Updated(env[s.name], next) else next]
  }

  /** One pass over the loop x1 = phi(x0, x2); x2 = x1 + k. */
  function CounterPass(sem: Semantics, env: Env, k: Const): Env {
    var head := Store(sem, env, Assignment("x1", Phi([Ref("x0"), Ref("x2")])));
    Store(sem, head, Assignment("x2", Binary(Add, Ref("x1"), Known(k))))
  }

  /** Every loop counter is analysed as a constant: after two passes nothing changes any more, and the entry of
    x1 is its first value c, although the second value c + k flows into it. */
  lemma CounterStays(sem: Semantics, c: Const, k: Const)
    requires sem.binary(Add, c, k).Some?
    ensures var start: Env := map["x0" := Offset(None, c)];
            var next := Offset(None, sem.binary(Add, c, k).value);
            var env := CounterPass(sem, start, k);
            && CounterPass(sem, env, k) == env
            && env == map["x0" := Offset(None, c), "x1" := Offset(None, c), "x2" := next]
            && (Leq(next, env["x1"]) <==> sem.binary(Add, c, k) == Some(c))
  {
    var x, next := Offset(None, c), Offset(None, sem.binary(Add, c, k).value);
    var args := [Ref("x0"), Ref("x2")];
    PhiOfTwo(x, Meet);
    PhiOfTwo(x, next);
    var start: Env := map["x0" := x];
    var env: Env := map["x0" := x, "x1" := x, "x2" := next];
    assert Values(start, args) == [x, Meet];
    assert Values(env, args) == [x, next];
    assert CounterPass(sem, start, k) == env;
    assert CounterPass(sem, env, k) == env;
  }

  lemma PhiOfTwo(x: Track, y: Track)
    ensures CombineAll([x, y]) == Combine(x, y)
  {
    assert CombineAll([x]) == Combine(CombineAll([x][..0]), x);
    assert [x, y][..1] == [x];
  }

  // ----- Straight-line code on constants -----

  function ConcreteValue(env: map<string, Const>, a: Arg): Option<Const> {
    match a
    case Known(c) => Some(c)
    case Ref(n) => if n in env then Some(env[n]) else None
  }

  /** The result on constants; None if it is not a constant or the operation is not a pure one. */
  function Concrete(sem: Semantics, env: map<string, Const>, op: Operation<Arg>): Option<Const> {
    match op
    case Binary(o, a, b) =>
      var x, y := ConcreteValue(env, a), ConcreteValue(env, b);
      if o.Store? || x.None? || y.None? then None else sem.binary(o, x.value, y.value)
    case Unary(o, a) =>
      var x := ConcreteValue(env, a);
      if x.None? || o.Call? || o.Load? then None else sem.unary(o, x.value)
    case Initialize(_, _) => None
    case Phi(_) => None
  }

  function ConcreteRun(sem: Semantics, env: map<string, Const>, run: seq<Assignment>): Option<map<string, Const>>
    decreases |run|
  {
    if run == [] then Some(env)
    else
      match Concrete(sem, env, run[0].op)
      case None => None
      case Some(c) => ConcreteRun(sem, env[run[0].name := c], run[1..])
  }

  /** Constants as offsets into the global region. */
  function Global(env: map<string, Const>): Env {
    map n | n in env :: Offset(None, env[n])
  }

  /** A move, if it is one, has an operand that moving does not change: one within its size. */
  predicate CopyExact(sem: Semantics, env: map<string, Const>, op: Operation<Arg>) {
    op.Unary? && op.uop.Move? ==>
      var x := ConcreteValue(env, op.arg);
      x.Some? && sem.unary(Move, x.value) == x
  }

  /** Every move of the run is exact where it is executed. */
  predicate CopiesExact(sem: Semantics, env: map<string, Const>, run: seq<Assignment>)
    requires ConcreteRun(sem, env, run).Some?
    decreases |run|
  {
    run != [] ==>
      && CopyExact(sem, env, run[0].op)
      && CopiesExact(sem, env[run[0].name := Concrete(sem, env, run[0].op).value], run[1..])
  }

  /** One operation with a constant result: the domain computes that constant iff it is no move that truncates. */
  lemma OperationExactIff(sem: Semantics, env: map<string, Const>, op: Operation<Arg>)
    requires Concrete(sem, env, op).Some? && !op.Phi?
    ensures Execute(sem, Abstract(Global(env), op)) == Offset(None, Concrete(sem, env, op).value) <==>
            CopyExact(sem, env, op)
  {
  }

  predicate DistinctNames(run: seq<Assignment>) {
    forall i, j :: 0 <= i < j < |run| ==> run[i].name != run[j].name
  }

  lemma {:induction false} RunKeeps(sem: Semantics, env: Env, run: seq<Assignment>, n: string)
    requires forall s :: s in run ==> !s.op.Phi? && s.name != n
    ensures n in env ==> n in Run(sem, env, run) && Run(sem, env, run)[n] == env[n]
    decreases |run|
  {
    if run != [] {
      var s := run[0];
      assert s in run;
      RunKeeps(sem, env[s.name := Execute(sem, Abstract(env, s.op))], run[1..], n);
    }
  }

  lemma {:induction false} ConcreteKeeps(sem: Semantics, env: map<string, Const>, run: seq<Assignment>, n: string)
    requires ConcreteRun(sem, env, run).Some? && forall s :: s in run ==> s.name != n
    ensures n in env ==> n in ConcreteRun(sem, env, run).value && ConcreteRun(sem, env, run).value[n] == env[n]
    decreases |run|
  {
    if run != [] {
      assert run[0] in run;
      ConcreteKeeps(sem, env[run[0].name := Concrete(sem, env, run[0].op).value], run[1..], n);
    }
  }

  /** On straight-line code whose operations all yield constants, each name assigned once, the domain computes
    exactly those constants iff no move truncates its operand. */
  lemma {:induction false} StraightLineExactIff(sem: Semantics, env: map<string, Const>, run: seq<Assignment>)
    requires ConcreteRun(sem, env, run).Some? && DistinctNames(run) && forall s :: s in run ==> !s.op.Phi?
    ensures Run(sem, Global(env), run) == Global(ConcreteRun(sem, env, run).value) <==> CopiesExact(sem, env, run)
    decreases |run|
  {
    if run != [] {
      var s, rest := run[0], run[1..];
      assert s in run;
      var c := Concrete(sem, env, s.op).value;
      var t := Execute(sem, Abstract(Global(env), s.op));
      OperationExactIff(sem, env, s.op);
      assert Run(sem, Global(env), run) == Run(sem, Global(env)[s.name := t], rest);
      if CopyExact(sem, env, s.op) {
        assert Global(env)[s.name := t] == Global(env[s.name := c]);
        StraightLineExactIff(sem, env[s.name := c], rest);
      } else {
        forall r | r in rest ensures r.name != s.name && !r.op.Phi? { LaterName(run, r); }
        RunKeeps(sem, Global(env)[s.name := t], rest, s.name);
        ConcreteKeeps(sem, env[s.name := c], rest, s.name);
      }
    }
  }

  lemma LaterName(run: seq<Assignment>, r: Assignment)
    requires run != [] && DistinctNames(run) && r in run[1..]
    ensures r.name != run[0].name && r in run
  {
    var i :| 0 <= i < |run[1..]| && run[1..][i] == r;
    assert run[i + 1] == r;
  }

  // ----- Straight-line code under `il::execute` -----

  const IlExecute := Semantics(Rreil.Execute2, Rreil.Execute1)

  function SizeOf(sizes: map<string, nat>, a: Arg): nat {
    match a
    case Known(c) => c.size
    case Ref(n) => if n in sizes then sizes[n] else 0
  }

  predicate Comparison(op: BinaryOp) {
    op.Equal? || op.LessOrEqualUnsigned? || op.LessOrEqualSigned? || op.LessUnsigned? || op.LessSigned?
  }

  function ResultSize(sizes: map<string, nat>, op: Operation<Arg>): nat {
    match op
    case Binary(o, a, _) => if Comparison(o) then 1 else SizeOf(sizes, a)
    case Unary(o, a) => if o.ZeroExtend? || o.SignExtend? then o.width else SizeOf(sizes, a)
    case _ => 0
  }

  /** No Select, and no sign extension to fewer bits than the operand has. */
  predicate Regular(sizes: map<string, nat>, run: seq<Assignment>)
    decreases |run|
  {
    run != [] ==>
      var op := run[0].op;
      && !(op.Binary? && op.bop.Select?)
      && (op.Unary? && op.uop.SignExtend? ==> Rreil.Width(SizeOf(sizes, op.arg)) <= Rreil.Width(op.uop.width))
      && Regular(sizes[run[0].name := ResultSize(sizes, op)], run[1..])
  }

  /** The operation moves no immediate that has bits beyond its size. */
  predicate SmallMove(op: Operation<Arg>) {
    op.Unary? && op.uop.Move? && op.arg.Known? ==> Rreil.Reduced(op.arg.c)
  }

  function Sizes(env: map<string, Const>): map<string, nat> {
    map n | n in env :: env[n].size
  }

  ghost predicate AllReduced(env: map<string, Const>) {
    forall n :: n in env ==> Rreil.Reduced(env[n])
  }

  lemma MoveExactIff(c: Const)
    ensures Rreil.Execute1(Move, c) == Some(c) <==> Rreil.Reduced(c)
  {
    hide Bits.Low, Bits.Pow2;
    if Rreil.Reduced(c) { Bits.LowOfSmall(c.value, Rreil.Width(c.size)); }
  }

  /** One step keeps all values within their sizes, and its size is known beforehand. */
  lemma StepReduces(env: map<string, Const>, op: Operation<Arg>, run: seq<Assignment>)
    requires AllReduced(env) && Concrete(IlExecute, env, op).Some?
    requires run != [] && run[0].op == op && Regular(Sizes(env), run)
    ensures Rreil.Reduced(Concrete(IlExecute, env, op).value)
    ensures Concrete(IlExecute, env, op).value.size == ResultSize(Sizes(env), op)
    ensures CopyExact(IlExecute, env, op) <==> SmallMove(op)
  {
    hide Rreil.Reduced, Bits.Low, Bits.Pow2;
    match op
    case Binary(o, a, b) =>
      Rreil.BinaryReduces(o, ConcreteValue(env, a).value, ConcreteValue(env, b).value);
    case Unary(o, a) =>
      var x := ConcreteValue(env, a).value;
      assert x.size == SizeOf(Sizes(env), a);
      Rreil.UnaryReducesIff(o, x);
      MoveExactIff(x);
    case _ =>
  }

  /** From values within their sizes, the moves of regular code are exact iff no immediate that is moved has bits
    beyond its size. */
  lemma {:induction false} MovesExactIff(env: map<string, Const>, run: seq<Assignment>)
    requires AllReduced(env) && ConcreteRun(IlExecute, env, run).Some? && Regular(Sizes(env), run)
    ensures CopiesExact(IlExecute, env, run) <==> forall s :: s in run ==> SmallMove(s.op)
    decreases |run|
  {
    if run != [] {
      hide SmallMove, CopyExact, Concrete, Rreil.Reduced;
      var s, rest := run[0], run[1..];
      var c := Concrete(IlExecute, env, s.op).value;
      StepReduces(env, s.op, run);
      assert Sizes(env[s.name := c]) == Sizes(env)[s.name := c.size];
      MovesExactIff(env[s.name := c], rest);
      assert run == [s] + rest;
    }
  }

  /** The condition on the code alone under which the domain computes exactly the constants of `il::execute`. */
  lemma MachineExactIff(env: map<string, Const>, run: seq<Assignment>)
    requires AllReduced(env) && ConcreteRun(IlExecute, env, run).Some? && Regular(Sizes(env), run)
    requires DistinctNames(run) && forall s :: s in run ==> !s.op.Phi?
    ensures Run(IlExecute, Global(env), run) == Global(ConcreteRun(IlExecute, env, run).value) <==>
            forall s :: s in run ==> SmallMove(s.op)
  {
    StraightLineExactIff(IlExecute, env, run);
    MovesExactIff(env, run);
  }

  /** An 8-bit immediate of -1 in a 16-bit operation is stored with all 64 bits set: moving it keeps them,
    although the value of the move is 0xffff. */
  lemma MoveKeepsUnreduced(env: map<string, Const>)
    ensures var sem, c := IlExecute, Const(0xffff_ffff_ffff_ffff, 16);
            && Concrete(sem, env, Unary(Move, Known(c))) == Some(Const(0xffff, 16))
            && Execute(sem, Abstract(Global(env), Unary(Move, Known(c)))) == Offset(None, c)
  {
    hide Bits.Low, Bits.Pow2;
    Bits.Powers();
    Bits.LowIsRemainder(0xffff_ffff_ffff_ffff, 16, 0x1_0000);
  }
}
