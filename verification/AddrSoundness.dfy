/** What the values of Bounded Address Tracking (abstract-interp/src/bounded_addr_track.rs) stand for, and which of
  its operations are sound. */
module AddrSoundness {
  import opened Bits
  import opened Il
  import opened Rreil
  import opened Operations
  import opened AddrTrack

  // ----- What a value denotes -----

  /** The address each version of each region starts at. */
  type Bases = (string, nat) -> nat

  function Base(bases: Bases, r: RegionName): nat {
    match r
    case None => 0
    case Some((name, version)) => bases(name, version)
  }

  function Modulus(size: nat): nat {
    Pow2(Width(size))
  }

  /** The two numbers are the same modulo `m`. */
  predicate Same(a: int, b: int, m: nat)
    requires m > 0
  {
    a % m == b % m
  }

  /** `k` is the address `c` bytes into the region, up to bits beyond the pointer's size. */
  predicate Points(bases: Bases, r: RegionName, c: Const, k: Const) {
    k.size == c.size && Same(k.value, Base(bases, r) + c.value, Modulus(c.size))
  }

  ghost predicate Denotes(bases: Bases, t: Track, k: Const) {
    match t
    case Join => true
    case InRegion(r) => exists c :: Points(bases, r, c, k)
    case Offset(r, c) => Points(bases, r, c, k)
    case Meet => false
  }

  lemma DenotesUp(bases: Bases, x: Track, y: Track, k: Const)
    requires Leq(x, y) && Denotes(bases, x, k)
    ensures Denotes(bases, y, k)
  {
    hide Points;
  }

  // ----- Remainders -----

  /** Equal remainders are equal up to a multiple. */
  lemma SameIff(a: int, b: int, m: nat)
    requires m > 0
    ensures Same(a, b, m) <==> Same(a - b, 0, m)
  {
    var q, r, p, s := a / m, a % m, b / m, b % m;
    assert a == q * m + r && b == p * m + s;
    QuotientIs(0, m, 0, 0);
    if r >= s {
      assert a - b == (q - p) * m + (r - s);
      QuotientIs(a - b, m, q - p, r - s);
    } else {
      assert a - b == (q - p - 1) * m + (r - s + m);
      QuotientIs(a - b, m, q - p - 1, r - s + m);
    }
  }

  lemma SameRemainderOf(a: int, m: nat)
    requires m > 0
    ensures Same(a % m, a, m)
  {
    QuotientIs(a % m, m, 0, a % m);
  }

  lemma SameSum(a: int, a': int, b: int, b': int, m: nat)
    requires m > 0 && Same(a, a', m) && Same(b, b', m)
    ensures Same(a + b, a' + b', m)
  {
    hide Same;
    SameIff(a, a', m);
    SameIff(b, b', m);
    SameIff(a + b, a' + b', m);
    Multiples(a - a', b - b', m);
  }

  lemma Multiples(a: int, b: int, m: nat)
    requires m > 0 && Same(a, 0, m) && Same(b, 0, m)
    ensures Same(a + b, 0, m)
  {
    QuotientIs(0, m, 0, 0);
    var p, q := a / m, b / m;
    assert a + b == (p + q) * m;
    QuotientIs(a + b, m, p + q, 0);
  }

  /** What is the same modulo a multiple of `m` is the same modulo `m`. */
  lemma SameBelow(a: int, b: int, m: nat, n: nat, k: nat)
    requires m > 0 && k > 0 && n == m * k && n > 0 && Same(a, b, n)
    ensures Same(a, b, m)
  {
    hide Same;
    SameIff(a, b, n);
    SameIff(a, b, m);
    MultipleBelow(a - b, m, n, k);
  }

  lemma MultipleBelow(a: int, m: nat, n: nat, k: nat)
    requires m > 0 && k > 0 && n == m * k && n > 0 && Same(a, 0, n)
    ensures Same(a, 0, m)
  {
    QuotientIs(0, m, 0, 0);
    QuotientIs(0, n, 0, 0);
    var q := a / n;
    assert a == q * n;
    assert q * (m * k) == q * k * m;
    QuotientIs(a, m, q * k, 0);
  }

  lemma PowersDivide(w: nat, t: nat) returns (k: nat)
    requires w <= t
    ensures k > 0 && Pow2(t) == Pow2(w) * k
  {
    Pow2Add(w, t - w);
    k := Pow2(t - w);
  }

  // ----- Addition -----

  /** Adding two offsets is sound unless both are addresses: then the second base is lost. */
  lemma AddSoundIff(bases: Bases, x: Track, y: Track, a: Const, b: Const)
    requires x.Offset? && y.Offset? && Denotes(bases, x, a) && Denotes(bases, y, b) && a.size == b.size
    ensures Denotes(bases, ExecuteBinary(IlExecute, Add, x, y), Execute2(Add, a, b).value) <==>
            x.region.None? || y.region.None? || Same(Base(bases, y.region), 0, Modulus(a.size))
  {
    hide Execute2, Pow2, Same, Width;
    var m := Modulus(a.size);
    SumUnreduced(a, b);
    SumUnreduced(x.at, y.at);
    var p, q := Base(bases, x.region), Base(bases, y.region);
    var kept := if x.region.Some? then p else q;
    SumSame(a.value, b.value, x.at.value, y.at.value, p, q, kept, m);
    assert x.region.None? || y.region.None? ==> p + q - kept == 0;
    SameRefl(0, m);
  }

  lemma SumSame(a: nat, b: nat, x: nat, y: nat, p: nat, q: nat, kept: nat, m: nat)
    requires m > 0 && Same(a, p + x, m) && Same(b, q + y, m)
    ensures Same((a + b) % m, kept + (x + y) % m, m) <==> Same(p + q - kept, 0, m)
  {
    hide Same;
    SameSum(a, p + x, b, q + y, m);
    SameRemainderOf(a + b, m);
    SameRemainderOf(x + y, m);
    SameRefl(kept, m);
    SameSum(kept, kept, (x + y) % m, x + y, m);
    SameTrans((a + b) % m, a + b, p + x + (q + y), m);
    SameIffs((a + b) % m, p + x + (q + y), kept + (x + y) % m, kept + (x + y), m);
    SameIff(p + x + (q + y), kept + (x + y), m);
  }

  lemma SameRefl(a: int, m: nat)
    requires m > 0
    ensures Same(a, a, m)
  {
  }

  lemma SameTrans(a: int, b: int, c: int, m: nat)
    requires m > 0 && Same(a, b, m) && Same(b, c, m)
    ensures Same(a, c, m)
  {
  }

  lemma SameIffs(a: int, a': int, b: int, b': int, m: nat)
    requires m > 0 && Same(a, a', m) && Same(b, b', m)
    ensures Same(a, b, m) <==> Same(a', b', m)
  {
  }

  // ----- Extension and moves -----

  /** Zero extension is sound iff the address does not leave the range of the old size. */
  lemma ZeroExtendSoundIff(bases: Bases, x: Track, t: nat, a: Const)
    requires x.Offset? && Denotes(bases, x, a)
    ensures var r := ExecuteUnary(IlExecute, ZeroExtend(t), x);
            var m, n := Modulus(a.size), Modulus(t);
            Denotes(bases, r, Execute1(ZeroExtend(t), a).value) <==>
            Width(t) <= Width(a.size) || (Base(bases, x.region) + x.at.value % m) % n < m
  {
    hide Pow2, Same, Low;
    var w, u := Width(a.size), Width(t);
    var m, n, p, o := Modulus(a.size), Modulus(t), Base(bases, x.region), x.at.value;
    LowIsRemainder(a.value, w, m);
    LowIsRemainder(o, w, m);
    LowIsRemainder(a.value % m, u, n);
    LowIsRemainder(o % m, u, n);
    SameRemainderOf(a.value % m, n);
    SameRemainderOf(o % m, n);
    SameRefl(p, n);
    SameSum(p, p, o % m % n, o % m, n);
    SameIffs(a.value % m % n, a.value % m, p + o % m % n, p + o % m, n);
    SameRemainderOf(a.value, m);
    SameRemainderOf(o, m);
    SameRefl(p, m);
    SameSum(p, p, o % m, o, m);
    SameSymTrans(a.value % m, a.value, p + o, p + o % m, m);
    ZeroExtended(a.value % m, p + o % m, m, n, w, u);
  }

  lemma SameSymTrans(a: int, b: int, c: int, d: int, m: nat)
    requires m > 0 && Same(a, b, m) && Same(b, c, m) && Same(d, c, m)
    ensures Same(a, d, m)
  {
  }

  lemma ZeroExtended(a: nat, b: int, m: nat, n: nat, w: nat, u: nat)
    requires m == Pow2(w) && n == Pow2(u) && a < m && Same(a, b, m)
    ensures Same(a, b, n) <==> u <= w || b % n < m
  {
    hide Pow2;
    if u <= w {
      var k := PowersDivide(u, w);
      SameBelow(a, b, n, m, k);
    } else {
      var k := PowersDivide(w, u);
      PowMonotone(w, u);
      QuotientIs(a, n, 0, a);
      QuotientIs(a, m, 0, a);
      SameRemainderOf(b, n);
      SameBelow(b % n, b, m, n, k);
      if b % n < m { QuotientIs(b % n, m, 0, b % n); }
    }
  }

  /** Sign extension is sound iff the signed address does not leave the range of the old size. */
  lemma SignExtendSoundIff(bases: Bases, x: Track, t: nat, a: Const)
    requires x.Offset? && Denotes(bases, x, a) && a.size > 0 && t > 0
    ensures var r := ExecuteUnary(IlExecute, SignExtend(t), x);
            var w, u := Width(a.size), Width(t);
            Denotes(bases, r, Execute1(SignExtend(t), a).value) <==>
            u <= w || InRange(Base(bases, x.region) + Signed(x.at.value % Pow2(w), w), w, u)
  {
    hide Pow2, Same, Low, Signed, ExtendedTo, InRange;
    var w, u := Width(a.size), Width(t);
    var m, n, p, o := Modulus(a.size), Modulus(t), Base(bases, x.region), x.at.value;
    LowIsRemainder(a.value, w, m);
    LowIsRemainder(o, w, m);
    var v, c := a.value % m, o % m;
    ExtendedSame(v, w, u);
    ExtendedSame(c, w, u);
    SameRefl(p, n);
    SameSum(p, p, ExtendedTo(c, w, u), Signed(c, w), n);
    SameIffs(ExtendedTo(v, w, u), Signed(v, w), p + ExtendedTo(c, w, u), p + Signed(c, w), n);
    SignedSame(a.value, w);
    SignedSame(o, w);
    SameRefl(p, m);
    SameSum(p, p, Signed(c, w), o, m);
    SameSymTrans(Signed(v, w), a.value, p + o, p + Signed(c, w), m);
    SignExtended(v, p + Signed(c, w), m, n, w, u);
  }

  /** The number that is `s` modulo 2^u, read with its sign, has `w` bits. */
  predicate InRange(s: int, w: nat, u: nat)
    requires 0 < w && 0 < u
  {
    -(Pow2(w - 1) as int) <= Signed(s % Pow2(u), u) < Pow2(w - 1)
  }

  lemma SignedSame(a: nat, w: nat)
    requires w > 0
    ensures Same(Signed(a % Pow2(w), w), a, Pow2(w))
  {
    hide Pow2, Signed;
    SignedIs(a % Pow2(w), w);
  }

  lemma ExtendedSame(v: nat, w: nat, u: nat)
    requires 0 < w <= 64 && v < Pow2(w)
    ensures Same(ExtendedTo(v, w, u), Signed(v, w), Pow2(u))
  {
    hide Pow2, Signed, Unsigned, Same;
    UnsignedIs(Signed(v, w), u);
    SameRemainderOf(Signed(v, w), Pow2(u));
    if u < w {
      SignedSame(v, w);
      QuotientIs(v, Pow2(w), 0, v);
      var k := PowersDivide(u, w);
      SameBelow(Signed(v, w), v, Pow2(u), Pow2(w), k);
      SameSym(Signed(v, w), v, Pow2(u));
    }
  }

  lemma SameSym(a: int, b: int, m: nat)
    requires m > 0 && Same(a, b, m)
    ensures Same(b, a, m)
  {
  }

  lemma SignExtended(v: nat, s: int, m: nat, n: nat, w: nat, u: nat)
    requires 0 < w && 0 < u && m == Pow2(w) && n == Pow2(u) && v < m && Same(Signed(v, w), s, m)
    ensures Same(Signed(v, w), s, n) <==> u <= w || InRange(s, w, u)
  {
    hide Pow2, Signed;
    SignedIs(v, w);
    if u <= w {
      var k := PowersDivide(u, w);
      SameBelow(Signed(v, w), s, n, m, k);
    } else {
      var k := PowersDivide(w, u);
      var r := s % n;
      SignedIs(r, u);
      PowMonotone(w, u - 1);
      NextPower(w - 1);
      NextPower(u - 1);
      if Same(Signed(v, w), s, n) {
        OnlyOne(Signed(v, w), Signed(r, u), n);
      } else if InRange(s, w, u) {
        SameBelow(Signed(r, u), s, m, n, k);
        OnlyOne(Signed(v, w), Signed(r, u), m);
        assert false;
      }
    }
  }

  /** Two numbers less than `m` apart are the same modulo `m` only if they are equal. */
  lemma OnlyOne(a: int, b: int, m: nat)
    requires m > 0 && Same(a, b, m) && a - b < m && b - a < m
    ensures a == b
  {
    SameIff(a, b, m);
    if a > b { QuotientIs(a - b, m, 0, a - b); }
    if a < b { SameIff(b, a, m); QuotientIs(b - a, m, 0, b - a); }
  }

  lemma MoveSound(bases: Bases, x: Track, a: Const)
    requires Denotes(bases, x, a)
    ensures Denotes(bases, ExecuteUnary(IlExecute, Move, x), Execute1(Move, a).value)
  {
    hide Pow2, Low, Points;
    if x.Offset? {
      PointsMoved(bases, x.region, x.at, a);
    } else if x.InRegion? {
      var c :| Points(bases, x.region, c, a);
      PointsMoved(bases, x.region, c, a);
    }
  }

  lemma PointsMoved(bases: Bases, r: RegionName, c: Const, a: Const)
    requires Points(bases, r, c, a)
    ensures Points(bases, r, c, Execute1(Move, a).value)
  {
    hide Pow2, Low;
    var m := Modulus(a.size);
    LowIsRemainder(a.value, Width(a.size), m);
    SameRemainderOf(a.value, m);
  }

  // ----- Phi, and whole operations -----

  lemma PhiSound(bases: Bases, xs: seq<Track>, i: nat, a: Const)
    requires i < |xs| && Denotes(bases, xs[i], a)
    ensures Denotes(bases, Execute(IlExecute, Phi(xs)), a)
  {
    hide Denotes;
    if |xs| > 1 {
      PhiIsLub(xs, CombineAll(xs));
      LeqIsOrder(CombineAll(xs), CombineAll(xs), CombineAll(xs));
      assert xs[i] in xs;
      DenotesUp(bases, xs[i], CombineAll(xs), a);
    }
  }

  /** Of two constants in the global region that have no bits beyond their sizes, every operation computes the
    constant of `il::execute`. */
  lemma GlobalSound(bases: Bases, op: BinaryOp, x: Track, y: Track, a: Const, b: Const)
    requires x.Offset? && y.Offset? && x.region.None? && y.region.None? && !op.Store?
    requires Denotes(bases, x, a) && Denotes(bases, y, b)
    requires Reduced(x.at) && Reduced(y.at) && Reduced(a) && Reduced(b)
    ensures match Execute2(op, a, b)
            case Some(r) => ExecuteBinary(IlExecute, op, x, y) == Offset(None, r)
            case None => ExecuteBinary(IlExecute, op, x, y) == Join
  {
    hide Execute2, Pow2;
    QuotientIs(a.value, Modulus(a.size), 0, a.value);
    QuotientIs(x.at.value, Modulus(a.size), 0, x.at.value);
    QuotientIs(b.value, Modulus(b.size), 0, b.value);
    QuotientIs(y.at.value, Modulus(b.size), 0, y.at.value);
  }

  // ----- The form of results -----

  /** The region an operation works on: that of the first operand that has one. */
  function Carried(x: Track, y: Track): RegionName
    requires x.Offset? && y.Offset?
  {
    if x.region.Some? then x.region else y.region
  }

  /** Operands that are no offsets give Join, constants of the global region a constant of it. Addition keeps
    region and version, Select of an address is Join, and every other operation on an address raises the version
    by one, up to the limit. */
  lemma BinaryForm(sem: Semantics, op: BinaryOp, x: Track, y: Track)
    ensures var r := ExecuteBinary(sem, op, x, y);
            && (!(x.Offset? && y.Offset?) || op.Store? ==> r == Join)
            && (x.Offset? && y.Offset? && !op.Store? ==>
                  var v, region := sem.binary(op, x.at, y.at), Carried(x, y);
                  && (v.None? ==> r == Join)
                  && (v.Some? && (region.None? || op.Add?) ==> r == Offset(region, v.value))
                  && (region.Some? && op.Select? ==> r == Join)
                  && (v.Some? && region.Some? && !op.Add? && !op.Select? ==>
                        var (name, version) := region.value;
                        r == if version >= 10 then Join else Offset(Some((name, version + 1)), v.value)))
  {
  }

  lemma UnaryForm(sem: Semantics, op: UnaryOp, x: Track)
    ensures var r := ExecuteUnary(sem, op, x);
            && (op.Move? ==> r == x)
            && (op.Call? || op.Load? ==> r == Join)
            && ((op.ZeroExtend? || op.SignExtend?) && !x.Offset? ==> r == Join)
            && ((op.ZeroExtend? || op.SignExtend?) && x.Offset? ==>
                  match sem.unary(op, x.at) case None => r == Join case Some(v) => r == Offset(x.region, v))
  {
  }

  // ----- Runs -----

  type State = map<string, Const>

  /** Every variable holds a value that its entry denotes. */
  ghost predicate Covers(bases: Bases, env: Env, st: State) {
    forall n :: n in st ==> Denotes(bases, Value(env, Ref(n)), st[n])
  }

  /** `op` yields `r` in `st`, with operands of one size as `il::execute` asserts; a Phi yields the operand of the
    edge control came from. Loads, calls and uninitialised values may be anything. */
  ghost predicate Yields(st: State, op: Operation<Arg>, r: Const) {
    match op
    case Binary(o, a, b) =>
      var x, y := ConcreteValue(st, a), ConcreteValue(st, b);
      x.Some? && y.Some? && x.value.size == y.value.size && (!o.Store? ==> Execute2(o, x.value, y.value) == Some(r))
    case Unary(o, a) =>
      var x := ConcreteValue(st, a);
      x.Some? && (!o.Call? && !o.Load? ==> Execute1(o, x.value) == Some(r))
    case Initialize(_, _) => true
    case Phi(args) => exists i :: 0 <= i < |args| && ConcreteValue(st, args[i]) == Some(r)
  }

  /** The operation is one of the sound ones: it adds no two addresses, extends no address beyond the range of its
    size, and does nothing else with an offset. */
  ghost predicate Tame(bases: Bases, env: Env, op: Operation<Arg>) {
    match op
    case Binary(o, a, b) =>
      var x, y := Value(env, a), Value(env, b);
      x.Offset? && y.Offset? && !o.Store? ==> o.Add? && (x.region.None? || y.region.None?)
    case Unary(o, a) =>
      var x := Value(env, a);
      x.Offset? && (o.ZeroExtend? || o.SignExtend?) ==> ExtendsSoundly(bases, o, x)
    case Initialize(_, _) => true
    case Phi(args) => args != []
  }

  predicate ExtendsSoundly(bases: Bases, o: UnaryOp, x: Track)
    requires x.Offset? && (o.ZeroExtend? || o.SignExtend?)
  {
    var w, u := Width(x.at.size), Width(o.width);
    && w > 0 && u > 0
    && (u <= w
        || (o.ZeroExtend? && (Base(bases, x.region) + x.at.value % Pow2(w)) % Pow2(u) < Pow2(w))
        || (o.SignExtend? && InRange(Base(bases, x.region) + Signed(x.at.value % Pow2(w), w), w, u)))
  }

  lemma OperandCovered(bases: Bases, env: Env, st: State, a: Arg)
    requires Covers(bases, env, st) && ConcreteValue(st, a).Some?
    ensures Denotes(bases, Value(env, a), ConcreteValue(st, a).value)
  {
    if a.Known? { assert Points(bases, None, a.c, a.c); }
  }

  lemma StepCovered(bases: Bases, env: Env, st: State, op: Operation<Arg>, r: Const)
    requires Covers(bases, env, st) && Tame(bases, env, op) && Yields(st, op, r)
    ensures Denotes(bases, Execute(IlExecute, Abstract(env, op)), r)
  {
    hide Covers, Denotes, Execute1, Execute2, Pow2, Points, Same, InRange;
    JoinDenotes(bases, r);
    match op {
      case Binary(o, a, b) =>
        var x, y := Value(env, a), Value(env, b);
        OperandCovered(bases, env, st, a);
        OperandCovered(bases, env, st, b);
        if x.Offset? && y.Offset? && !o.Store? {
          AddSoundIff(bases, x, y, ConcreteValue(st, a).value, ConcreteValue(st, b).value);
        }
      case Unary(o, a) =>
        OperandCovered(bases, env, st, a);
        UnaryCovered(bases, Value(env, a), o, ConcreteValue(st, a).value, r);
      case Initialize(_, _) =>
      case Phi(args) =>
        var i :| 0 <= i < |args| && ConcreteValue(st, args[i]) == Some(r);
        OperandCovered(bases, env, st, args[i]);
        PhiSound(bases, Values(env, args), i, r);
    }
  }

  lemma JoinDenotes(bases: Bases, r: Const)
    ensures Denotes(bases, Join, r)
  {
  }

  lemma UnaryCovered(bases: Bases, x: Track, o: UnaryOp, a: Const, r: Const)
    requires Denotes(bases, x, a) && (!o.Call? && !o.Load? ==> Execute1(o, a) == Some(r))
    requires x.Offset? && (o.ZeroExtend? || o.SignExtend?) ==> ExtendsSoundly(bases, o, x)
    ensures Denotes(bases, ExecuteUnary(IlExecute, o, x), r)
  {
    hide Execute1, Pow2, Same, InRange;
    match o
    case ZeroExtend(t) => if x.Offset? { ZeroExtendSoundIff(bases, x, t, a); }
    case SignExtend(t) => if x.Offset? { SignExtendSoundIff(bases, x, t, a); }
    case Move => MoveSound(bases, x, a);
    case _ =>
  }

  /** The states arise by executing the assignments one after the other, all of them tame where they are
    executed. */
  ghost predicate TameRun(bases: Bases, env: Env, run: seq<Assignment>, states: seq<State>)
    decreases |run|
  {
    && |states| == |run| + 1
    && (run != [] ==>
          var s := run[0];
          && Tame(bases, env, s.op)
          && s.name in states[1] && states[1] == states[0][s.name := states[1][s.name]]
          && Yields(states[0], s.op, states[1][s.name])
          && TameRun(bases, env[s.name := Execute(IlExecute, Abstract(env, s.op))], run[1..], states[1..]))
  }

  /** Whatever the bases are: along a tame run of any length the domain's value denotes the concrete one. */
  lemma {:induction false} TrackingSound(bases: Bases, env: Env, run: seq<Assignment>, states: seq<State>)
    requires TameRun(bases, env, run, states) && Covers(bases, env, states[0])
    requires forall s :: s in run ==> (s.op.Phi? ==> s.op.args != [])
    ensures Covers(bases, Run(IlExecute, env, run), states[|run|])
    decreases |run|
  {
    if run != [] {
      hide Denotes, Tame, Yields;
      var s := run[0];
      assert s in run;
      var env1 := env[s.name := Execute(IlExecute, Abstract(env, s.op))];
      StepCovered(bases, env, states[0], s.op, states[1][s.name]);
      assert Covers(bases, env1, states[1]);
      TrackingSound(bases, env1, run[1..], states[1..]);
      assert Run(IlExecute, env, run) == Run(IlExecute, env1, run[1..]);
      assert states[1..][|run[1..]|] == states[|run|];
    }
  }

  /** Stack pointer plus heap pointer: the result is taken for an address on the stack. */
  lemma TwoAddressesMisjudged(bases: Bases, sp: Const, hp: Const)
    requires sp.size == hp.size == 64 && sp.value == bases("stack", 0) && hp.value == bases("heap", 0) == 8
    ensures var x, y := Offset(Some(("stack", 0)), Const(0, 64)), Offset(Some(("heap", 0)), Const(0, 64));
            && Denotes(bases, x, sp) && Denotes(bases, y, hp)
            && ExecuteBinary(IlExecute, Add, x, y).Offset?
            && !Denotes(bases, ExecuteBinary(IlExecute, Add, x, y), Execute2(Add, sp, hp).value)
  {
    hide Execute2, Pow2;
    var x, y := Offset(Some(("stack", 0)), Const(0, 64)), Offset(Some(("heap", 0)), Const(0, 64));
    Powers();
    SumUnreduced(x.at, y.at);
    AddSoundIff(bases, x, y, sp, hp);
  }
}
