/** The Kset domain (abstract-interp/src/kset.rs): sets of at most ten constants, ordered by
  inclusion, with everything larger collapsed to `Join`. */
module KsetDomain {
  import opened Bits
  import opened Il
  import opened Sets

  /** Largest cardinality before `Join`. */
  const MAXIMAL_CARDINALITY: nat := 10

  datatype Kset = Join | Set(elems: seq<Const>) | Meet

  // ----- Order on constants, sorted vectors -----

  /** Lexicographic order of `(u64, usize)` pairs. */
  predicate Less(a: Const, b: Const) {
    a.value < b.value || (a.value == b.value && a.size < b.size)
  }

  predicate StrictlySorted(v: seq<Const>) {
    forall i, j :: 0 <= i < j < |v| ==> Less(v[i], v[j])
  }

  function Elems(v: seq<Const>): set<Const> {
    set c | c in v
  }

  /** What the documentation of `Kset::Set` promises, plus the order every constructor sorts into. */
  predicate Canonical(k: Kset) {
    k.Set? ==> 0 < |k.elems| <= MAXIMAL_CARDINALITY && StrictlySorted(k.elems)
  }

  /** Concretisation: the constants `k` stands for. */
  predicate Denotes(k: Kset, c: Const) {
    k.Join? || (k.Set? && c in k.elems)
  }

  /** The lattice order: inclusion of the denoted sets, with `Join` on top. */
  predicate Leq(a: Kset, b: Kset) {
    || b.Join?
    || a.Meet?
    || (a.Set? && b.Set? && Elems(a.elems) <= Elems(b.elems))
  }

  lemma {:induction false} SortedUnique(v: seq<Const>, w: seq<Const>)
    requires StrictlySorted(v) && StrictlySorted(w)
    requires Elems(v) == Elems(w)
    ensures v == w
    decreases |v|
  {
    assert (v != [] ==> v[0] in Elems(v)) && (w != [] ==> w[0] in Elems(w));
    if v != [] && w != [] {
      assert v[0] in Elems(w) && w[0] in Elems(v);
      assert v[0] == w[0];
      assert Elems(v[1..]) == Elems(v) - {v[0]} by {
        forall c ensures c in Elems(v[1..]) <==> c in Elems(v) - {v[0]} {
          if c in Elems(v) - {v[0]} {
            var i :| 0 <= i < |v| && v[i] == c;
            assert v[1..][i - 1] == c;
          }
        }
      }
      assert Elems(w[1..]) == Elems(w) - {w[0]} by {
        forall c ensures c in Elems(w[1..]) <==> c in Elems(w) - {w[0]} {
          if c in Elems(w) - {w[0]} {
            var i :| 0 <= i < |w| && w[i] == c;
            assert w[1..][i - 1] == c;
          }
        }
      }
      SortedUnique(v[1..], w[1..]);
      assert v == [v[0]] + v[1..] && w == [w[0]] + w[1..];
    }
  }

  lemma {:induction false} SortedCardinality(v: seq<Const>)
    requires StrictlySorted(v)
    ensures |Elems(v)| == |v|
  {
    if v != [] {
      var w := v[..|v| - 1];
      SortedCardinality(w);
      assert v[|v| - 1] !in w;
      assert Elems(v) == Elems(w) + {v[|v| - 1]} by { assert v == w + [v[|v| - 1]]; }
    }
  }

  // ----- From hash sets to sorted vectors -----

  lemma SortedCons(c: Const, v: seq<Const>)
    requires StrictlySorted(v) && forall x :: x in v ==> Less(c, x)
    ensures StrictlySorted([c] + v)
  {
    var r := [c] + v;
    forall i, j | 0 <= i < j < |r| ensures Less(r[i], r[j]) {
      if i == 0 { assert r[j] == v[j - 1]; } else { assert r[i] == v[i - 1] && r[j] == v[j - 1]; }
    }
  }

  /** Inserts `c` into the sorted vector `v`. */
  function Insert(v: seq<Const>, c: Const): (r: seq<Const>)
    requires StrictlySorted(v) && c !in v
    ensures StrictlySorted(r) && Elems(r) == Elems(v) + {c}
  {
    if v == [] then
      assert Elems([c]) == {c};
      [c]
    else if Less(c, v[0]) then
      SortedCons(c, v);
      [c] + v
    else
      var rest := Insert(v[1..], c);
      assert v == [v[0]] + v[1..];
      assert forall x :: x in rest ==> x in Elems(v[1..]) || x == c by {
        assert forall x :: x in rest ==> x in Elems(rest);
      }
      SortedCons(v[0], rest);
      [v[0]] + rest
  }

  /** `drain().collect()` followed by `sort()`: the set is emptied in an arbitrary order, and the
    result is the same sorted vector whatever that order is (see `SortedUnique`). */
  method SortedVector(s: set<Const>) returns (v: seq<Const>)
    ensures StrictlySorted(v) && Elems(v) == s && |v| == |s|
  {
    v := [];
    var rest := s;
    while rest != {}
      invariant rest <= s
      invariant StrictlySorted(v) && Elems(v) == s - rest
    {
      var c :| c in rest;
      v := Insert(v, c);
      rest := rest - {c};
    }
    SortedCardinality(v);
  }

  lemma {:induction false} SortedExists(s: set<Const>) returns (v: seq<Const>)
    ensures StrictlySorted(v) && Elems(v) == s
  {
    if s == {} {
      v := [];
    } else {
      var c :| c in s;
      v := SortedExists(s - {c});
      assert c !in Elems(v);
      v := Insert(v, c);
    }
  }

  ghost function SortedSeq(s: set<Const>): (v: seq<Const>)
    ensures StrictlySorted(v) && Elems(v) == s && |v| == |s|
  {
    assert exists v :: StrictlySorted(v) && Elems(v) == s by { var v := SortedExists(s); }
    var v :| StrictlySorted(v) && Elems(v) == s;
    SortedCardinality(v);
    v
  }

  /** The best abstraction of a finite set of constants. */
  ghost function FromSet(s: set<Const>): (k: Kset)
    ensures Canonical(k)
    ensures k.Join? <==> |s| > MAXIMAL_CARDINALITY
    ensures k.Meet? <==> s == {}
    ensures k.Set? ==> Elems(k.elems) == s
  {
    if |s| > MAXIMAL_CARDINALITY then Join
    else if s == {} then Meet
    else Set(SortedSeq(s))
  }

  lemma FromSetMonotone(s: set<Const>, t: set<Const>)
    requires s <= t
    ensures Leq(FromSet(s), FromSet(t))
  {
    SubsetCardinality(s, t);
  }

  /** Collecting the same set always gives the same Kset. */
  lemma FromSetUnique(v: seq<Const>, s: set<Const>)
    requires StrictlySorted(v) && Elems(v) == s && s != {} && |s| <= MAXIMAL_CARDINALITY
    ensures Set(v) == FromSet(s)
  {
    SortedUnique(v, SortedSeq(s));
  }

  // ----- Transfer functions -----

  function Image2(a: seq<Const>, b: seq<Const>, f: (Const, Const) -> Option<Const>): set<Const> {
    set x, y | x in a && y in b && f(x, y).Some? :: f(x, y).value
  }

  function Image1(a: seq<Const>, f: Const -> Option<Const>): set<Const> {
    set x | x in a && f(x).Some? :: f(x).value
  }

  /** What `permute` computes. */
  ghost function Permute(a: Kset, b: Kset, f: (Const, Const) -> Option<Const>): (k: Kset)
    ensures Canonical(k)
  {
    match (a, b)
    case (Join, _) => Join
    case (_, Join) => Join
    case (Set(v), Set(w)) => FromSet(Image2(v, w, f))
    case _ => Meet
  }

  /** What `map` computes. */
  ghost function MapKset(a: Kset, f: Const -> Option<Const>): (k: Kset)
    ensures Canonical(k)
  {
    match a
    case Set(v) => FromSet(Image1(v, f))
    case Join => Join
    case Meet => Meet
  }

  /** What `combine` computes. */
  ghost function Combine(a: Kset, b: Kset): (k: Kset)
    ensures Canonical(a) && Canonical(b) ==> Canonical(k)
  {
    match (a, b)
    case (Join, _) => Join
    case (_, Join) => Join
    case (_, Meet) => a
    case (Meet, _) => b
    case (Set(v), Set(w)) => FromSet(Elems(v) + Elems(w))
  }

  /** The fold over the operands of a Phi with more than one operand. */
  ghost function CombineAll(acc: Kset, ops: seq<Kset>): (k: Kset)
    ensures Canonical(acc) && (forall i :: 0 <= i < |ops| ==> Canonical(ops[i])) ==> Canonical(k)
    decreases |ops|
  {
    if ops == [] then acc else CombineAll(Combine(acc, ops[0]), ops[1..])
  }

  /** Abstract execution of one operation. `unreachable!` is reached on a Phi without operands. */
  ghost function Execute(sem: Semantics, op: Operation<Kset>): Kset
    requires op.Phi? ==> op.args != []
  {
    match op
    case Binary(o, a, b) => Permute(a, b, (x, y) => sem.binary(o, x, y))
    case Unary(o, a) => MapKset(a, x => sem.unary(o, x))
    case Initialize(_, _) => Meet
    case Phi(args) => if |args| == 1 then args[0] else CombineAll(Meet, args)
  }

  /** A constant operand reduced to its size. */
  function Truncated(c: Const): Const {
    Const(if c.size < 64 then c.value % Pow2(c.size) else c.value, c.size)
  }

  /** `abstract_value`: a constant is a singleton, everything else may be anything. */
  function AbstractValue<N>(v: Rvalue<N>): Kset {
    if v.Constant? then Set([Truncated(v.c)]) else Join
  }

  function Narrow(self: Kset, a: Kset): Kset {
    match a
    case Meet => Meet
    case Join => self
    case Set(v) =>
      match self
      case Meet => Meet
      case Join => Set(v)
      case Set(w) => Set(Retain(w, v))
  }

  /** The elements of `w` that occur in `v`, in the order of `w`. */
  function Retain(w: seq<Const>, v: seq<Const>): (r: seq<Const>)
    ensures forall c :: c in r <==> c in w && c in v
    ensures StrictlySorted(w) ==> StrictlySorted(r)
    ensures |r| <= |w|
  {
    if w == [] then []
    else
      var rest := Retain(w[1..], v);
      assert w == [w[0]] + w[1..];
      if w[0] in v then
        assert StrictlySorted(w) ==> StrictlySorted([w[0]] + rest) by {
          if StrictlySorted(w) { SortedCons(w[0], rest); }
        }
        [w[0]] + rest
      else rest
  }

  predicate MoreExact(self: Kset, a: Kset) {
    if self == a then false
    else
      match (self, a)
      case (Join, _) => true
      case (_, Meet) => true
      case (Set(v), Set(w)) => Elems(w) <= Elems(v)
      case _ => false
  }

  function Widen(self: Kset, s: Kset): Kset {
    s
  }

  /** `(v >> offset) % (1 << (size - 1))` on every element. No statement reads zero bits. */
  function Extract(self: Kset, size: nat, offset: nat): Kset {
    match self
    case Join => Join
    case Meet => Meet
    case Set(v) => Set(seq(|v|, i requires 0 <= i < |v| =>
                           Const(v[i].value / Pow2(offset) % Pow2(if size > 0 then size - 1 else 0), size)))
  }

  // ----- The loops that compute them -----

  function Produced(r: Option<Const>): set<Const> {
    if r.Some? then {r.value} else {}
  }

  lemma ImageColumn(x: Const, b: seq<Const>, j: nat, f: (Const, Const) -> Option<Const>)
    requires j < |b|
    ensures Image2([x], b[..j + 1], f) == Image2([x], b[..j], f) + Produced(f(x, b[j]))
  {
    assert b[..j + 1] == b[..j] + [b[j]];
  }

  lemma ImageRow(a: seq<Const>, i: nat, b: seq<Const>, f: (Const, Const) -> Option<Const>)
    requires i < |a|
    ensures Image2(a[..i + 1], b, f) == Image2(a[..i], b, f) + Image2([a[i]], b, f)
  {
    assert a[..i + 1] == a[..i] + [a[i]];
  }

  lemma ImagePart(a: seq<Const>, i: nat, b: seq<Const>, f: (Const, Const) -> Option<Const>)
    requires i <= |a|
    ensures Image2(a[..i], b, f) <= Image2(a, b, f)
  {
  }

  /** The inner loop of `permute`: adds the results for one left operand, stopping as soon as the
    set outgrows the limit. */
  method PermuteRow(x: Const, w: seq<Const>, f: (Const, Const) -> Option<Const>, seen: set<Const>)
    returns (ret: set<Const>)
    requires |seen| <= MAXIMAL_CARDINALITY
    ensures seen <= ret <= seen + Image2([x], w, f)
    ensures |ret| <= MAXIMAL_CARDINALITY ==> ret == seen + Image2([x], w, f)
  {
    ret := seen;
    for j := 0 to |w|
      invariant ret == seen + Image2([x], w[..j], f) && |ret| <= MAXIMAL_CARDINALITY
    {
      ImageColumn(x, w, j, f);
      var r := f(x, w[j]);
      if r.Some? {
        ret := ret + {r.value};
        if |ret| > MAXIMAL_CARDINALITY {
          assert Image2([x], w[..j + 1], f) <= Image2([x], w, f);
          return;
        }
      }
    }
    assert w[..|w|] == w;
  }

  /** `permute` on two sets: the outer loop with its early return. */
  method PermuteSets(v: seq<Const>, w: seq<Const>, f: (Const, Const) -> Option<Const>) returns (k: Kset)
    ensures k == FromSet(Image2(v, w, f))
  {
    var ret: set<Const> := {};
    for i := 0 to |v|
      invariant ret == Image2(v[..i], w, f) && |ret| <= MAXIMAL_CARDINALITY
    {
      ImageRow(v, i, w, f);
      ret := PermuteRow(v[i], w, f, ret);
      if |ret| > MAXIMAL_CARDINALITY {
        ImagePart(v, i + 1, w, f);
        SubsetCardinality(ret, Image2(v, w, f));
        return Join;
      }
    }
    assert v[..|v|] == v;
    if ret == {} { return Meet; }
    var sorted := SortedVector(ret);
    FromSetUnique(sorted, ret);
    return Set(sorted);
  }

  /** `permute`: on two sets the result is `Join` exactly when more than ten distinct constants
    arise, `Meet` exactly when none does, and otherwise their sorted vector. */
  method PermuteLoop(a: Kset, b: Kset, f: (Const, Const) -> Option<Const>) returns (k: Kset)
    ensures a.Join? || b.Join? ==> k.Join?
    ensures a.Set? && b.Set? ==>
              var image := Image2(a.elems, b.elems, f);
              && (k.Join? <==> |image| > MAXIMAL_CARDINALITY)
              && (k.Meet? <==> image == {})
              && (k.Set? ==> StrictlySorted(k.elems) && Elems(k.elems) == image)
    ensures k == Permute(a, b, f)
  {
    if a.Join? || b.Join? { return Join; }
    if a.Meet? || b.Meet? { return Meet; }
    k := PermuteSets(a.elems, b.elems, f);
  }

  /** `map`: one pass over the vector into a hash set. */
  method MapLoop(a: Kset, f: Const -> Option<Const>) returns (k: Kset)
    ensures !a.Set? ==> k == a
    ensures a.Set? ==>
              var image := Image1(a.elems, f);
              && (k.Join? <==> |image| > MAXIMAL_CARDINALITY)
              && (k.Meet? <==> image == {})
              && (k.Set? ==> StrictlySorted(k.elems) && Elems(k.elems) == image)
    ensures k == MapKset(a, f)
  {
    if !a.Set? { return a; }
    var s: set<Const> := {};
    for i := 0 to |a.elems|
      invariant s == Image1(a.elems[..i], f)
    {
      var r := f(a.elems[i]);
      assert a.elems[..i + 1] == a.elems[..i] + [a.elems[i]];
      if r.Some? { s := s + {r.value}; }
    }
    assert a.elems[..|a.elems|] == a.elems;
    if |s| > MAXIMAL_CARDINALITY { return Join; }
    if s == {} { return Meet; }
    var v := SortedVector(s);
    FromSetUnique(v, s);
    return Set(v);
  }

  /** `combine`: both vectors chained into one hash set, collected and sorted. */
  method CombineLoop(a: Kset, b: Kset) returns (k: Kset)
    ensures k == Combine(a, b)
  {
    if a.Join? || b.Join? { return Join; }
    if b.Meet? { return a; }
    if a.Meet? { return b; }
    var s := Elems(a.elems) + Elems(b.elems);
    var v := SortedVector(s);
    if v == [] { return Meet; }
    if |v| > MAXIMAL_CARDINALITY { return Join; }
    assert v[0] in Elems(v);
    FromSetUnique(v, s);
    return Set(v);
  }

  /** `Avalue::execute` for Kset. */
  method ExecuteLoop(sem: Semantics, op: Operation<Kset>) returns (k: Kset)
    requires op.Phi? ==> op.args != []
    ensures k == Execute(sem, op)
  {
    match op
    case Binary(o, a, b) => k := PermuteLoop(a, b, (x, y) => sem.binary(o, x, y));
    case Unary(o, a) => k := MapLoop(a, x => sem.unary(o, x));
    case Initialize(_, _) => k := Meet;
    case Phi(args) =>
      if |args| == 1 { return args[0]; }
      k := Meet;
      for i := 0 to |args|
        invariant CombineAll(k, args[i..]) == CombineAll(Meet, args)
      {
        assert args[i..][1..] == args[i + 1..];
        k := CombineLoop(k, args[i]);
      }
  }

  // ----- What operations yield -----

  /** The abstraction of a set of constants, at most ten of them sorted. */
  ghost predicate Abstracts(k: Kset, s: set<Const>) {
    && (k.Join? <==> |s| > 10)
    && (k.Meet? <==> s == {})
    && (k.Set? ==> StrictlySorted(k.elems) && forall c :: c in k.elems <==> c in s)
  }

  /** Every operation on two sets of constants yields exactly the constants it has on their elements; Join and
    Meet are passed on, Join first. */
  lemma ExecuteBinaryIs(sem: Semantics, o: BinaryOp, a: Kset, b: Kset)
    ensures var k := Execute(sem, Binary(o, a, b));
            && (a.Join? || b.Join? ==> k == Join)
            && (!a.Join? && !b.Join? && (a.Meet? || b.Meet?) ==> k == Meet)
            && (a.Set? && b.Set? ==>
                  Abstracts(k, set x, y | x in a.elems && y in b.elems && sem.binary(o, x, y).Some? ::
                                 sem.binary(o, x, y).value))
  {
    if a.Set? && b.Set? {
      var f := (x, y) => sem.binary(o, x, y);
      var image := set x, y | x in a.elems && y in b.elems && sem.binary(o, x, y).Some? :: sem.binary(o, x, y).value;
      assert Image2(a.elems, b.elems, f) == image;
      AbstractsFromSet(image);
    }
  }

  lemma ExecuteUnaryIs(sem: Semantics, o: UnaryOp, a: Kset)
    ensures var k := Execute(sem, Unary(o, a));
            && (!a.Set? ==> k == a)
            && (a.Set? ==> Abstracts(k, set x | x in a.elems && sem.unary(o, x).Some? :: sem.unary(o, x).value))
  {
    if a.Set? {
      var f := x => sem.unary(o, x);
      var image := set x | x in a.elems && sem.unary(o, x).Some? :: sem.unary(o, x).value;
      assert Image1(a.elems, f) == image;
      AbstractsFromSet(image);
    }
  }

  /** Nothing is known to be initialised, and a Phi with one operand is that operand. */
  lemma ExecuteOtherIs(sem: Semantics, op: Operation<Kset>)
    requires op.Initialize? || (op.Phi? && |op.args| == 1)
    ensures Execute(sem, op) == if op.Initialize? then Meet else op.args[0]
  {
  }

  lemma AbstractsFromSet(s: set<Const>)
    ensures Abstracts(FromSet(s), s)
  {
    var k := FromSet(s);
    if k.Set? {
      assert forall c :: c in k.elems <==> c in Elems(k.elems);
    }
  }

  /** A constant operand keeps exactly its low bits. */
  lemma AbstractValueIs<N>(v: Rvalue<N>)
    ensures v.Constant? ==>
              AbstractValue(v) == Set([Const(if v.c.size < 64 then Low(v.c.value, v.c.size) else v.c.value, v.c.size)])
    ensures !v.Constant? ==> AbstractValue(v) == Join
  {
    hide Low;
    if v.Constant? { LowIsRemainder(v.c.value, v.c.size, Pow2(v.c.size)); }
  }

  /** A partial read keeps one bit less than it should: on a single constant it is right iff the top bit of the
    slice is clear. */
  lemma ExtractRightIff(c: Const, size: nat, offset: nat)
    requires size > 0
    ensures var slice := Shr(c.value, offset);
            && Extract(Set([c]), size, offset) == Set([Const(Low(slice, size - 1), size)])
            && (Extract(Set([c]), size, offset) == Set([Const(Low(slice, size), size)]) <==>
                BitAt(slice, size - 1) == 0)
  {
    hide Low, Shr, Pow2, BitAt;
    var slice := Shr(c.value, offset);
    LowIsRemainder(c.value, offset, Pow2(offset));
    LowIsRemainder(slice, size - 1, Pow2(size - 1));
    LowNext(slice, size - 1);
    var r := Extract(Set([c]), size, offset);
    assert r.elems == [Const(Low(slice, size - 1), size)];
    assert r.elems[0].value == Low(slice, size - 1);
  }

  /** Bit `k` of `x`. */
  function BitAt(x: nat, k: nat): nat {
    Shr(x, k) % 2
  }

  lemma {:induction false} LowNext(x: nat, k: nat)
    ensures Low(x, k + 1) == Low(x, k) + if BitAt(x, k) == 0 then 0 else Pow2(k)
  {
    if k > 0 { LowNext(x / 2, k - 1); }
  }

  // ----- Lattice laws -----

  lemma LeqTransitive(a: Kset, b: Kset, c: Kset)
    requires Leq(a, b) && Leq(b, c)
    ensures Leq(a, c)
  {
  }

  /** On canonical values the order is antisymmetric: equal sets are equal vectors. */
  lemma LeqAntisymmetric(a: Kset, b: Kset)
    requires Canonical(a) && Canonical(b) && Leq(a, b) && Leq(b, a)
    ensures a == b
  {
    if a.Set? && b.Set? {
      SortedUnique(a.elems, b.elems);
    }
  }

  /** The order is inclusion of what canonical values denote. */
  lemma LeqIsInclusion(a: Kset, b: Kset)
    requires Canonical(a) && Canonical(b)
    ensures Leq(a, b) <==> forall c :: Denotes(a, c) ==> Denotes(b, c)
  {
    if a.Join? && b.Set? {
      var c := FreshConst(b.elems);
      assert Denotes(a, c) && !Denotes(b, c);
    } else if a.Join? && b.Meet? {
      assert Denotes(a, Const(0, 0)) && !Denotes(b, Const(0, 0));
    } else if a.Set? && b.Meet? {
      assert Denotes(a, a.elems[0]) && !Denotes(b, a.elems[0]);
    } else if a.Set? && b.Set? {
      assert forall c :: c in Elems(a.elems) <==> Denotes(a, c);
      assert forall c :: c in Elems(b.elems) <==> Denotes(b, c);
    }
  }

  /** No vector holds every constant. */
  lemma {:induction false} FreshConst(v: seq<Const>) returns (c: Const)
    ensures c !in v
    ensures forall x :: x in v ==> Less(x, c)
  {
    if v == [] {
      c := Const(0, 0);
    } else {
      var d := FreshConst(v[1..]);
      c := Const(d.value + v[0].value + 1, 0);
      assert v == [v[0]] + v[1..];
    }
  }

  /** `combine` is the least upper bound. */
  lemma CombineIsLub(a: Kset, b: Kset, u: Kset)
    requires Canonical(a) && Canonical(b) && Canonical(u)
    ensures Leq(a, Combine(a, b)) && Leq(b, Combine(a, b))
    ensures Leq(a, u) && Leq(b, u) ==> Leq(Combine(a, b), u)
  {
    if a.Set? && b.Set? && u.Set? && Leq(a, u) && Leq(b, u) {
      SortedCardinality(u.elems);
      SubsetCardinality(Elems(a.elems) + Elems(b.elems), Elems(u.elems));
    }
    if a.Set? && b.Set? { assert a.elems[0] in Elems(a.elems); }
  }

  lemma CombineCommutative(a: Kset, b: Kset)
    requires Canonical(a) && Canonical(b)
    ensures Combine(a, b) == Combine(b, a)
  {
    CombineIsLub(a, b, Combine(b, a));
    CombineIsLub(b, a, Combine(a, b));
    LeqAntisymmetric(Combine(a, b), Combine(b, a));
  }

  lemma CombineAssociative(a: Kset, b: Kset, c: Kset)
    requires Canonical(a) && Canonical(b) && Canonical(c)
    ensures Combine(Combine(a, b), c) == Combine(a, Combine(b, c))
  {
    var ab, bc := Combine(a, b), Combine(b, c);
    var l, r := Combine(ab, c), Combine(a, bc);
    CombineIsLub(a, bc, r);
    CombineIsLub(b, c, bc);
    LeqTransitive(b, bc, r);
    LeqTransitive(c, bc, r);
    CombineIsLub(a, b, r);
    CombineIsLub(ab, c, r);
    CombineIsLub(a, b, ab);
    CombineIsLub(ab, c, l);
    LeqTransitive(a, ab, l);
    LeqTransitive(b, ab, l);
    CombineIsLub(b, c, l);
    CombineIsLub(a, bc, l);
    LeqAntisymmetric(l, r);
  }

  lemma CombineIdempotent(a: Kset)
    requires Canonical(a)
    ensures Combine(a, a) == a
  {
    CombineIsLub(a, a, a);
    LeqAntisymmetric(Combine(a, a), a);
  }

  ghost predicate AllCanonical(ops: seq<Kset>) {
    forall i :: 0 <= i < |ops| ==> Canonical(ops[i])
  }

  /** The fold is the least upper bound of its start value and all operands. */
  lemma {:induction false} CombineAllIsLub(acc: Kset, ops: seq<Kset>, u: Kset)
    requires Canonical(acc) && AllCanonical(ops) && Canonical(u)
    ensures Leq(acc, CombineAll(acc, ops))
    ensures forall i :: 0 <= i < |ops| ==> Leq(ops[i], CombineAll(acc, ops))
    ensures Leq(acc, u) && (forall i :: 0 <= i < |ops| ==> Leq(ops[i], u)) ==> Leq(CombineAll(acc, ops), u)
    decreases |ops|
  {
    if ops == [] {
    } else {
      var acc', r := Combine(acc, ops[0]), CombineAll(acc, ops);
      CombineIsLub(acc, ops[0], u);
      CombineAllIsLub(acc', ops[1..], u);
      LeqTransitive(acc, acc', r);
      LeqTransitive(ops[0], acc', r);
      forall i | 0 <= i < |ops| ensures Leq(ops[i], r) {
        if i > 0 { assert ops[i] == ops[1..][i - 1]; }
      }
    }
  }

  /** A Phi is the least upper bound of its operands, whatever their number. */
  lemma PhiIsLub(sem: Semantics, ops: seq<Kset>, u: Kset)
    requires AllCanonical(ops) && ops != [] && Canonical(u)
    ensures Canonical(Execute(sem, Phi(ops)))
    ensures forall i :: 0 <= i < |ops| ==> Leq(ops[i], Execute(sem, Phi(ops)))
    ensures (forall i :: 0 <= i < |ops| ==> Leq(ops[i], u)) ==> Leq(Execute(sem, Phi(ops)), u)
  {
    CombineAllIsLub(Meet, ops, u);
  }

  /** A Phi depends only on the set of its operands: neither order nor duplicates matter. */
  lemma PhiIgnoresOrder(sem: Semantics, ops: seq<Kset>, ops': seq<Kset>)
    requires AllCanonical(ops) && ops != []
    requires forall k :: k in ops <==> k in ops'
    ensures ops' != [] && Execute(sem, Phi(ops)) == Execute(sem, Phi(ops'))
  {
    assert ops[0] in ops';
    forall i | 0 <= i < |ops'| ensures Canonical(ops'[i]) { assert ops'[i] in ops; }
    var r, r' := Execute(sem, Phi(ops)), Execute(sem, Phi(ops'));
    PhiIsLub(sem, ops, Meet);
    PhiIsLub(sem, ops', r);
    PhiIsLub(sem, ops, r');
    forall i | 0 <= i < |ops| ensures Leq(ops[i], r') { assert ops[i] in ops'; }
    forall i | 0 <= i < |ops'| ensures Leq(ops'[i], r) { assert ops'[i] in ops; }
    LeqAntisymmetric(r, r');
  }

  /** `narrow` denotes exactly the intersection. It leaves the canonical form precisely when two
    disjoint sets meet: the result is then the empty `Set`, which is not equal to `Meet`. */
  lemma NarrowIsIntersection(a: Kset, b: Kset)
    requires Canonical(a) && Canonical(b)
    ensures forall c :: Denotes(Narrow(a, b), c) <==> Denotes(a, c) && Denotes(b, c)
    ensures Canonical(Narrow(a, b)) <==> !(a.Set? && b.Set? && Elems(a.elems) !! Elems(b.elems))
    ensures !Canonical(Narrow(a, b)) ==> Narrow(a, b) == Set([])
  {
    if a.Set? && b.Set? {
      var r := Retain(a.elems, b.elems);
      if r != [] { assert r[0] in Elems(a.elems) && r[0] in Elems(b.elems); }
    }
  }

  /** `more_exact(x, y)` says that x denotes strictly more than y, although the trait documents it
    as `self <= other`. */
  lemma MoreExactIsStrictSuperset(a: Kset, b: Kset)
    requires Canonical(a) && Canonical(b)
    ensures MoreExact(a, b) <==> Leq(b, a) && a != b
  {
    if Leq(b, a) && a != b && !MoreExact(a, b) { LeqAntisymmetric(a, b); }
  }

  // ----- Monotonicity and soundness of the transfer functions -----

  lemma PermuteMonotone(a: Kset, b: Kset, a': Kset, b': Kset, f: (Const, Const) -> Option<Const>)
    requires Leq(a, a') && Leq(b, b')
    ensures Leq(Permute(a, b, f), Permute(a', b', f))
  {
    if a.Set? && b.Set? && a'.Set? && b'.Set? {
      assert forall c :: c in a.elems ==> c in Elems(a'.elems);
      assert forall c :: c in b.elems ==> c in Elems(b'.elems);
      FromSetMonotone(Image2(a.elems, b.elems, f), Image2(a'.elems, b'.elems, f));
    }
  }

  lemma MapMonotone(a: Kset, a': Kset, f: Const -> Option<Const>)
    requires Leq(a, a')
    ensures Leq(MapKset(a, f), MapKset(a', f))
  {
    if a.Set? && a'.Set? {
      assert forall c :: c in a.elems ==> c in Elems(a'.elems);
      FromSetMonotone(Image1(a.elems, f), Image1(a'.elems, f));
    }
  }

  /** Same operation, operands canonical and pairwise ordered. */
  ghost predicate OpLeq(x: Operation<Kset>, y: Operation<Kset>) {
    match (x, y)
    case (Binary(o, a, b), Binary(o', a', b')) => o == o' && Leq(a, a') && Leq(b, b')
    case (Unary(o, a), Unary(o', a')) => o == o' && Leq(a, a')
    case (Initialize(_, _), Initialize(_, _)) => x == y
    case (Phi(xs), Phi(ys)) =>
      && |xs| == |ys| > 0 && AllCanonical(xs) && AllCanonical(ys)
      && forall i :: 0 <= i < |xs| ==> Leq(xs[i], ys[i])
    case _ => false
  }

  lemma ExecuteMonotone(sem: Semantics, x: Operation<Kset>, y: Operation<Kset>)
    requires OpLeq(x, y)
    ensures Leq(Execute(sem, x), Execute(sem, y))
  {
    match x
    case Binary(o, a, b) =>
      PermuteMonotone(a, b, y.left, y.right, (p, q) => sem.binary(o, p, q));
    case Unary(o, a) =>
      MapMonotone(a, y.arg, p => sem.unary(o, p));
    case Initialize(_, _) =>
    case Phi(xs) =>
      var u := Execute(sem, y);
      PhiIsLub(sem, y.args, Meet);
      forall i | 0 <= i < |xs| ensures Leq(xs[i], u) { LeqTransitive(xs[i], y.args[i], u); }
      PhiIsLub(sem, xs, u);
  }
}
