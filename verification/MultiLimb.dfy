/** Multi-limb arithmetic with chains of ADC or SBB (amd64/src/semantic.rs:526-549, 953-977). */
module MultiLimb {
  import opened Bits
  import opened Il
  import opened Rreil
  import opened Registers
  import opened Arithmetic

  /** The number with the given limbs of `w` bits, least significant first. */
  function Number(limbs: seq<nat>, w: nat): nat {
    if limbs == [] then 0 else limbs[0] + Prod(Pow2(w), Number(limbs[1..], w))
  }

  /** `n` limbs of `w` bits represent the numbers below `2^(w * n)`. */
  function Modulus(w: nat, n: nat): nat {
    Pow2(Prod(w, n))
  }

  lemma ModulusNext(w: nat, n: nat)
    ensures Modulus(w, n + 1) == Prod(Pow2(w), Modulus(w, n)) && Modulus(w, 0) == 1
  {
    hide Pow2;
    assert Prod(w, n + 1) == w + Prod(w, n);
    Pow2Add(w, Prod(w, n));
    assert Prod(w, 0) == 0;
    SmallPowers();
  }

  /** One ADC or SBB of `b` to a register, in the state it meets. */
  datatype Round = Round(before: Cpu, f: Family, d: Part, b: Rvalue<Name>) {
    predicate Operands(w: nat) {
      Exists(f, d) && Size(d) == w && Steady(b) && HasSize(b, w)
    }
    function After(sub: bool): Cpu {
      Exec(before, CodeOf(sub, f, d, b))
    }
    function X(): nat { Get(before, Reg(f, d)) }
    function Y(): nat { Eval(before, b).value }
    function Z(sub: bool): nat { Get(After(sub), Reg(f, d)) }
  }

  function Carry(st: Cpu): nat {
    Get(st, Flag(CF))
  }

  /** Rounds in which each meets the carry its predecessor left. Whatever runs in between is free to
    change everything but CF, as long as registers stay coherent. */
  ghost predicate Linked(sub: bool, rs: seq<Round>, w: nat, c: nat) {
    rs == [] ||
    (&& rs[0].Operands(w) && Coherent(rs[0].before, rs[0].f) && Carry(rs[0].before) == c
     && Linked(sub, rs[1..], w, Carry(rs[0].After(sub))))
  }

  function LastCarry(sub: bool, rs: seq<Round>, c: nat): nat {
    if rs == [] then c else LastCarry(sub, rs[1..], Carry(rs[0].After(sub)))
  }

  function Xs(rs: seq<Round>): seq<nat> {
    if rs == [] then [] else [rs[0].X()] + Xs(rs[1..])
  }

  function Ys(rs: seq<Round>): seq<nat> {
    if rs == [] then [] else [rs[0].Y()] + Ys(rs[1..])
  }

  function Zs(sub: bool, rs: seq<Round>): seq<nat> {
    if rs == [] then [] else [rs[0].Z(sub)] + Zs(sub, rs[1..])
  }

  lemma NumberOfCons(v: nat, vs: seq<nat>, w: nat)
    ensures Number([v] + vs, w) == v + Prod(Pow2(w), Number(vs, w))
  {
    assert ([v] + vs)[1..] == vs;
  }

  lemma RoundCorrect(sub: bool, r: Round, w: nat, c: nat)
    requires r.Operands(w) && Coherent(r.before, r.f) && Carry(r.before) == c < 2
    ensures r.Z(sub) < Pow2(w) && Carry(r.After(sub)) < 2
    ensures r.Z(sub) == Exact(sub, r.X(), r.Y(), c) + (if sub then 1 else -1) * Carry(r.After(sub)) * Pow2(w)
  {
    hide Exec, Eval, Get, CodeOf, Coherent, Pow2, Signed, Ones, Exact, Written;
    CalculateEqual(r.before, sub, r.f, r.d, r.b, r.X(), r.Y(), c, r.After(sub));
  }

  lemma {:induction false} NumberBound(zs: seq<nat>, w: nat)
    requires forall z :: z in zs ==> z < Pow2(w)
    ensures Number(zs, w) < Modulus(w, |zs|)
  {
    hide Modulus;
    ModulusNext(w, 0);
    if zs != [] {
      assert zs[0] in zs && forall z :: z in zs[1..] ==> z in zs;
      NumberBound(zs[1..], w);
      ModulusNext(w, |zs| - 1);
      BaseBound(zs[0], Number(zs[1..], w), Pow2(w), Modulus(w, |zs| - 1));
    }
  }

  lemma BaseBound(z: nat, n: nat, m: nat, p: nat)
    requires z < m && n < p
    ensures z + Prod(m, n) < Prod(m, p)
  {
    assert m * (n + 1) <= m * p;
  }

  /** One limb and the equation for the remaining ones, put together. */
  lemma AddLimb(sub: bool, x: nat, y: nat, z: nat, c: nat, c1: nat, c': nat, m: nat, p: nat, xs: nat, ys: nat, zs: nat)
    requires var sign := if sub then 1 else -1;
             z == Exact(sub, x, y, c) + sign * c1 * m && zs == Exact(sub, xs, ys, c1) + sign * c' * p
    ensures z + Prod(m, zs) ==
            Exact(sub, x + Prod(m, xs), y + Prod(m, ys), c) + (if sub then 1 else -1) * c' * Prod(m, p)
  {
    var sign := if sub then 1 else -1;
    assert m * (sign * c' * p) == sign * c' * (m * p);
    if sub {
      assert m * (xs - ys - c1) == m * xs - m * ys - c1 * m;
    } else {
      assert m * (xs + ys + c1) == m * xs + m * ys + c1 * m;
    }
  }

  /** The chain computes the exact sum (difference) of the two numbers and the carry in. */
  lemma {:induction false} ChainEquation(sub: bool, rs: seq<Round>, w: nat, c: nat)
    requires Linked(sub, rs, w, c) && c < 2
    ensures LastCarry(sub, rs, c) < 2 && forall z :: z in Zs(sub, rs) ==> z < Pow2(w)
    ensures Number(Zs(sub, rs), w) ==
            Exact(sub, Number(Xs(rs), w), Number(Ys(rs), w), c)
            + (if sub then 1 else -1) * LastCarry(sub, rs, c) * Modulus(w, |rs|)
    decreases |rs|
  {
    hide Exec, Eval, Get, CodeOf, Coherent, Pow2, Exact, Number, Modulus;
    if rs == [] {
      EmptyChain(w, c);
    } else {
      var r, rest := rs[0], rs[1..];
      var c1 := Carry(r.After(sub));
      RoundCorrect(sub, r, w, c);
      ChainEquation(sub, rest, w, c1);
      ModulusNext(w, |rest|);
      NumberOfCons(r.X(), Xs(rest), w);
      NumberOfCons(r.Y(), Ys(rest), w);
      NumberOfCons(r.Z(sub), Zs(sub, rest), w);
      AddLimb(sub, r.X(), r.Y(), r.Z(sub), c, c1, LastCarry(sub, rest, c1), Pow2(w), Modulus(w, |rest|),
              Number(Xs(rest), w), Number(Ys(rest), w), Number(Zs(sub, rest), w));
    }
  }

  lemma EmptyChain(w: nat, c: nat)
    ensures Number([], w) == 0 && Modulus(w, 0) == 1 && Exact(false, 0, 0, c) == c && Exact(true, 0, 0, c) + c == 0
  {
    ModulusNext(w, 0);
  }

  /** Multi-limb addition and subtraction: the limbs hold the result modulo `Modulus(w, n)`, and the last
    CF says exactly whether the true result is out of range. */
  lemma MultiLimbCorrect(sub: bool, rs: seq<Round>, w: nat, c: nat)
    requires Linked(sub, rs, w, c) && c < 2
    ensures var t, m := Exact(sub, Number(Xs(rs), w), Number(Ys(rs), w), c), Modulus(w, |rs|);
            var z, carry := Number(Zs(sub, rs), w), LastCarry(sub, rs, c);
            && z < m
            && carry == Bit(!(0 <= t < m))
            && z == if 0 <= t < m then t else if sub then t + m else t - m
  {
    hide Linked, Pow2, Number, Zs, Xs, Ys, LastCarry, Modulus;
    ChainEquation(sub, rs, w, c);
    ZsLength(sub, rs);
    NumberBound(Zs(sub, rs), w);
    OperandBounds(sub, rs, w, c);
    var carry := LastCarry(sub, rs, c);
    assert carry == 0 || carry == 1;
  }

  lemma {:induction false} ZsLength(sub: bool, rs: seq<Round>)
    ensures |Zs(sub, rs)| == |rs|
  {
    hide Exec, Eval, Get, CodeOf;
    if rs != [] { ZsLength(sub, rs[1..]); }
  }

  lemma {:induction false} OperandBounds(sub: bool, rs: seq<Round>, w: nat, c: nat)
    requires Linked(sub, rs, w, c) && c < 2
    ensures Number(Xs(rs), w) < Modulus(w, |rs|) && Number(Ys(rs), w) < Modulus(w, |rs|)
    decreases |rs|
  {
    hide Exec, Eval, Get, CodeOf, Coherent, Pow2, Number, Modulus;
    if rs == [] {
      EmptyChain(w, c);
    } else {
      var r, rest := rs[0], rs[1..];
      RoundCorrect(sub, r, w, c);
      OperandReads(r.before, r.f, r.d, r.b);
      OperandBounds(sub, rest, w, Carry(r.After(sub)));
      ModulusNext(w, |rest|);
      NumberOfCons(r.X(), Xs(rest), w);
      NumberOfCons(r.Y(), Ys(rest), w);
      BaseBound(r.X(), Number(Xs(rest), w), Pow2(w), Modulus(w, |rest|));
      BaseBound(r.Y(), Number(Ys(rest), w), Pow2(w), Modulus(w, |rest|));
    }
  }

  // ----- The chain as one piece of code -----

  /** A limb: the register that holds it and the operand added to it. */
  datatype Limb = Limb(f: Family, d: Part, b: Rvalue<Name>) {
    function At(st: Cpu): Round {
      Round(st, f, d, b)
    }
    function Code(sub: bool): seq<Stmt> {
      CodeOf(sub, f, d, b)
    }
    /** Writing family `g` does not change this limb's operands. */
    predicate Avoids(g: Family) {
      f != g && !(b.Variable? && b.name.Reg? && b.name.family == g)
    }
  }

  function ChainCode(sub: bool, ls: seq<Limb>): seq<Stmt> {
    if ls == [] then [] else ls[0].Code(sub) + ChainCode(sub, ls[1..])
  }

  function Rounds(sub: bool, st: Cpu, ls: seq<Limb>): seq<Round>
    decreases |ls|
  {
    if ls == [] then [] else [ls[0].At(st)] + Rounds(sub, ls[0].At(st).After(sub), ls[1..])
  }

  /** The limbs live in different families, and no operand is an earlier limb. */
  ghost predicate Independent(ls: seq<Limb>) {
    ls == [] || ((forall l :: l in ls[1..] ==> l.Avoids(ls[0].f)) && Independent(ls[1..]))
  }

  function LimbValues(st: Cpu, ls: seq<Limb>): seq<nat> {
    if ls == [] then [] else [Get(st, Reg(ls[0].f, ls[0].d))] + LimbValues(st, ls[1..])
  }

  function Operands(st: Cpu, ls: seq<Limb>): seq<nat> {
    if ls == [] then [] else [Eval(st, ls[0].b).value] + Operands(st, ls[1..])
  }

  /** Everything but temporaries, flags and the limbs' families. */
  ghost predicate OnlyLimbs(st: Cpu, st': Cpu, ls: seq<Limb>) {
    && st'.mem == st.mem
    && forall n: Name :: !n.Temp? && !n.Flag? && (n.Reg? ==> forall l :: l in ls ==> l.f != n.family) ==>
         Get(st', n) == Get(st, n)
  }

  lemma {:induction false} SameLimbs(st: Cpu, st': Cpu, ls: seq<Limb>, g: Family)
    requires OnlyFlagsAndFamily(st, st', g) && forall l :: l in ls ==> l.Avoids(g) && Steady(l.b)
    ensures LimbValues(st', ls) == LimbValues(st, ls) && Operands(st', ls) == Operands(st, ls)
  {
    hide Get, Low, Shr;
    if ls != [] {
      assert ls[0] in ls;
      assert forall l :: l in ls[1..] ==> l in ls;
      SameLimbs(st, st', ls[1..], g);
    }
  }

  /** One limb leaves the others' operands and coherence alone. */
  lemma LimbStep(sub: bool, st: Cpu, l: Limb, w: nat)
    requires AllCoherent(st) && l.At(st).Operands(w) && Carry(st) < 2
    ensures var st1 := l.At(st).After(sub);
            AllCoherent(st1) && Carry(st1) < 2 && OnlyFlagsAndFamily(st, st1, l.f) && st1 == Exec(st, l.Code(sub))
  {
    hide Exec, Eval, Get, CodeOf, Pow2, FlagsRight, Exact, Coherent;
    var r := l.At(st);
    var st1 := r.After(sub);
    RoundCorrect(sub, r, w, Carry(st));
    CalculateEqual(st, sub, l.f, l.d, l.b, r.X(), r.Y(), Carry(st), st1);
    forall g ensures Coherent(st1, g) {
      if g != l.f { OtherFamilies(st, st1, l.f, g); }
    }
  }

  lemma OtherFamilies(st: Cpu, st1: Cpu, f: Family, g: Family)
    requires Coherent(st, g) && g != f && OnlyFlagsAndFamily(st, st1, f)
    ensures Coherent(st1, g)
  {
    hide Get, PartOf;
  }

  lemma {:induction false} StraightRounds(sub: bool, st: Cpu, ls: seq<Limb>, w: nat)
    requires AllCoherent(st) && Carry(st) < 2 && Independent(ls) && forall l :: l in ls ==> l.At(st).Operands(w)
    ensures var rs, st' := Rounds(sub, st, ls), Exec(st, ChainCode(sub, ls));
            && Linked(sub, rs, w, Carry(st)) && |rs| == |ls| && LastCarry(sub, rs, Carry(st)) == Carry(st')
            && Xs(rs) == LimbValues(st, ls) && Ys(rs) == Operands(st, ls) && Zs(sub, rs) == LimbValues(st', ls)
            && OnlyLimbs(st, st', ls) && AllCoherent(st')
    decreases |ls|
  {
    hide Eval, Get, CodeOf, Coherent, Pow2;
    if ls != [] {
      hide Exec;
      var l, rest := ls[0], ls[1..];
      assert l in ls;
      LimbStep(sub, st, l, w);
      var st1 := l.At(st).After(sub);
      assert forall k :: k in rest ==> k in ls && k.At(st1).Operands(w) by {
        forall k | k in rest ensures k in ls && k.At(st1).Operands(w) { assert k in ls && k.At(st).Operands(w); }
      }
      StraightRounds(sub, st1, rest, w);
      SameLimbs(st, st1, rest, l.f);
      ExecAppend(st, l.Code(sub), ChainCode(sub, rest));
      var rs, st' := Rounds(sub, st, ls), Exec(st, ChainCode(sub, ls));
      assert rs[0] == l.At(st) && rs[1..] == Rounds(sub, st1, rest);
      assert Get(st', Reg(l.f, l.d)) == Get(st1, Reg(l.f, l.d));
      OnlyMore(st, st1, st', ls);
    }
  }

  lemma OnlyMore(st: Cpu, st1: Cpu, st': Cpu, ls: seq<Limb>)
    requires ls != [] && OnlyFlagsAndFamily(st, st1, ls[0].f) && OnlyLimbs(st1, st', ls[1..])
    ensures OnlyLimbs(st, st', ls)
  {
    hide Get;
    forall n: Name | !n.Temp? && !n.Flag? && (n.Reg? ==> forall l :: l in ls ==> l.f != n.family)
      ensures Get(st', n) == Get(st, n)
    {
      assert ls[0] in ls && forall l :: l in ls[1..] ==> l in ls;
    }
  }

  /** Code for a chain of any number of limbs in different registers adds (subtracts) the whole numbers. */
  lemma ChainCodeCorrect(sub: bool, st: Cpu, ls: seq<Limb>, w: nat)
    requires AllCoherent(st) && Carry(st) < 2 && Independent(ls) && forall l :: l in ls ==> l.At(st).Operands(w)
    ensures var st', m := Exec(st, ChainCode(sub, ls)), Modulus(w, |ls|);
            var t := Exact(sub, Number(LimbValues(st, ls), w), Number(Operands(st, ls), w), Carry(st));
            var z := Number(LimbValues(st', ls), w);
            && z < m && Carry(st') == Bit(!(0 <= t < m))
            && z == (if 0 <= t < m then t else if sub then t + m else t - m)
            && AllCoherent(st') && OnlyLimbs(st, st', ls)
  {
    hide Exec, Linked, Pow2, Number, Zs, Xs, Ys, LastCarry, Modulus, Coherent;
    StraightRounds(sub, st, ls, w);
    MultiLimbCorrect(sub, Rounds(sub, st, ls), w, Carry(st));
  }
}
