/** What the bytes of an AMD64 instruction mean to the decoder (amd64/src/disassembler.rs): which prefixes are in
  force, where the opcode is, which table entry it selects, and how many bytes each operand has. */
module Encoding {
  import opened Bits
  import opened Il
  import opened Layers
  import opened Decoder

  // ----- Legacy prefixes -----

  predicate Repeats(b: byte) {
    b in {0xf0, 0xf2, 0xf3}
  }

  predicate Overrides(b: byte) {
    b in {0x2e, 0x36, 0x3e, 0x26, 0x64, 0x65}
  }

  predicate Legacy(b: byte) {
    Repeats(b) || Overrides(b) || b == 0x66 || b == 0x67
  }

  /** The first `n` bytes are the legacy prefixes, at most 15. */
  predicate IsRun(buf: seq<byte>, n: nat) {
    && n <= 15 && n <= |buf| && (forall j :: 0 <= j < n ==> Legacy(buf[j]))
    && (n == 15 || n == |buf| || !Legacy(buf[n]))
  }

  /** The first byte of the run in the group. */
  function FirstOf(run: seq<byte>, group: byte -> bool): Option<byte> {
    if run == [] then None else if group(run[0]) then Some(run[0]) else FirstOf(run[1..], group)
  }

  function OperandSize(mode: Mode, run: seq<byte>): nat {
    if 0x66 in run then (if mode == Real then 32 else 16) else if mode == Real then 16 else 32
  }

  function AddressSize(mode: Mode, run: seq<byte>): nat {
    match mode
    case Real => if 0x67 in run then 32 else 16
    case Protected => if 0x67 in run then 16 else 32
    case Long => if 0x67 in run then 32 else 64
  }

  /** The segment is that of the first override; CS and DS double as branch hints. */
  function SegmentOf(run: seq<byte>): (Segment, Hint) {
    match FirstOf(run, Overrides)
    case None => (NoSegment, NoHint)
    case Some(b) =>
      if b == 0x2e then (Cs, NotTaken)
      else if b == 0x3e then (Ds, Taken)
      else if b == 0x36 then (Ss, NoHint)
      else if b == 0x26 then (Es, NoHint)
      else if b == 0x64 then (Fs, NoHint)
      else (Gs, NoHint)
  }

  /** Only the very first byte can be a mandatory prefix. */
  function MandatoryOf(run: seq<byte>): Simd {
    if run == [] then NoSimd
    else if run[0] == 0x66 then P66
    else if run[0] == 0xf2 then F2
    else if run[0] == 0xf3 then F3
    else NoSimd
  }

  /** What the run of legacy prefixes sets. Only the first of LOCK, REPNE and REPE counts. */
  ghost predicate LegacyIs(mode: Mode, run: seq<byte>, p: Prefix) {
    && p.addressSize == AddressSize(mode, run)
    && (p.segment, p.hint) == SegmentOf(run)
    && (p.lock <==> FirstOf(run, Repeats) == Some(0xf0))
    && (p.repne <==> FirstOf(run, Repeats) == Some(0xf2))
    && (p.repe <==> FirstOf(run, Repeats) == Some(0xf3))
    && p.simd == MandatoryOf(run)
  }

  /** Nothing but legacy prefixes so far. */
  ghost predicate OnlyLegacy(mode: Mode, run: seq<byte>, s: Scan) {
    && s.i == |run| && !s.vex && !s.rex && LegacyIs(mode, run, s.prefix)
    && s.prefix.operandSize == OperandSize(mode, run)
    && s.prefix.simdSize == 128 && s.prefix.escape == NoEscape && s.prefix.vvvv == None
    && !s.prefix.rexW && !s.prefix.rexR && !s.prefix.rexX && !s.prefix.rexB
  }

  lemma {:induction false} FirstMore(run: seq<byte>, group: byte -> bool, c: byte)
    ensures FirstOf(run + [c], group) ==
            if FirstOf(run, group).Some? then FirstOf(run, group) else if group(c) then Some(c) else None
    ensures FirstOf(run, group).Some? ==> group(FirstOf(run, group).value)
    decreases |run|
  {
    if run == [] {
      assert [] + [c] == [c];
    } else {
      assert (run + [c])[1..] == run[1..] + [c];
      FirstMore(run[1..], group, c);
    }
  }

  /** A byte outside a group leaves what the group says. */
  lemma SameFirst(run: seq<byte>, b: byte)
    ensures !Repeats(b) ==> FirstOf(run + [b], Repeats) == FirstOf(run, Repeats)
    ensures !Overrides(b) ==> SegmentOf(run + [b]) == SegmentOf(run)
    ensures run != [] ==> MandatoryOf(run + [b]) == MandatoryOf(run)
    ensures 0x66 in run + [b] <==> 0x66 in run || b == 0x66
    ensures 0x67 in run + [b] <==> 0x67 in run || b == 0x67
  {
    hide Repeats, Overrides;
    FirstMore(run, Repeats, b);
    FirstMore(run, Overrides, b);
    assert run != [] ==> (run + [b])[0] == run[0];
  }

  lemma RepeatMore(mode: Mode, run: seq<byte>, s: Scan, b: byte)
    requires OnlyLegacy(mode, run, s) && Repeats(b)
    ensures OnlyLegacy(mode, run + [b], s.(i := s.i + 1, prefix := Group1(s.prefix, b as nat, s.i)))
  {
    assert run == [] ==> FirstOf(run, Repeats) == None;
    hide SegmentOf, FirstOf;
    SameFirst(run, b);
    FirstMore(run, Repeats, b);
    assert run == [] ==> (run + [b])[0] == b;
  }

  lemma OverrideMore(mode: Mode, run: seq<byte>, s: Scan, b: byte)
    requires OnlyLegacy(mode, run, s) && Overrides(b)
    ensures OnlyLegacy(mode, run + [b], s.(i := s.i + 1, prefix := Group2(s.prefix, b as nat)))
  {
    hide FirstOf;
    SameFirst(run, b);
    FirstMore(run, Overrides, b);
    assert run == [] ==> (run + [b])[0] == b;
  }

  lemma SizeMore(mode: Mode, run: seq<byte>, s: Scan, b: byte)
    requires OnlyLegacy(mode, run, s) && (b == 0x66 || b == 0x67)
    ensures var p := if b == 0x66 then OperandOverride(s.prefix, mode, s.i) else AddressOverride(s.prefix, mode);
            OnlyLegacy(mode, run + [b], s.(i := s.i + 1, prefix := p))
  {
    hide FirstOf, SegmentOf;
    SameFirst(run, b);
    assert run == [] ==> (run + [b])[0] == b;
  }

  /** One more legacy byte. */
  lemma OneMore(mode: Mode, buf: seq<byte>, s: Scan)
    requires s.i < |buf| && Legacy(buf[s.i]) && OnlyLegacy(mode, buf[..s.i], s)
    ensures var r := PrefixStep(mode, buf, s); r.Continue? && OnlyLegacy(mode, buf[..s.i + 1], r.next)
  {
    hide OnlyLegacy, Group1, Group2, OperandOverride, AddressOverride, LongPrefix;
    var run, b := buf[..s.i], buf[s.i];
    assert buf[..s.i + 1] == run + [b];
    if Repeats(b) {
      RepeatMore(mode, run, s, b);
    } else if Overrides(b) {
      OverrideMore(mode, run, s, b);
    } else {
      SizeMore(mode, run, s, b);
    }
  }

  lemma {:induction false} ScanLegacy(mode: Mode, buf: seq<byte>, n: nat, s: Scan) returns (s': Scan)
    requires IsRun(buf, n) && s.i <= n && OnlyLegacy(mode, buf[..s.i], s)
    ensures OnlyLegacy(mode, buf[..n], s') && Prefixes(mode, buf, s) == Prefixes(mode, buf, s')
    decreases n - s.i
  {
    s' := s;
    if s.i < n {
      hide OnlyLegacy, PrefixStep;
      OneMore(mode, buf, s);
      s' := ScanLegacy(mode, buf, n, PrefixStep(mode, buf, s).next);
    }
  }

  // ----- REX, VEX, EVEX and XOP -----

  predicate RexAt(mode: Mode, buf: seq<byte>, n: nat) {
    mode == Long && n < 15 && n < |buf| && 0x40 <= buf[n] <= 0x4f
  }

  /** A REX prefix with the given bit. */
  predicate RexBit(mode: Mode, buf: seq<byte>, n: nat, weight: nat)
    requires weight > 0
  {
    RexAt(mode, buf, n) && buf[n] as nat / weight % 2 == 1
  }

  predicate VexAt(mode: Mode, buf: seq<byte>) {
    mode == Long && |buf| > 0 && buf[0] in {0xc5, 0xc4, 0x62, 0x8f}
  }

  /** REX.W promotes an operand size of 32. */
  function Promoted(mode: Mode, buf: seq<byte>, n: nat): nat
    requires n <= |buf|
  {
    var size := OperandSize(mode, buf[..n]);
    if RexBit(mode, buf, n, 8) && size == 32 then 64 else size
  }

  lemma {:induction false} BitIs(v: nat, k: nat, m: nat)
    requires m == Pow2(k)
    ensures BitSet(v, k) <==> v / m % 2 == 1
  {
    BitIsShift(v, k);
    LowIsRemainder(v, k, m);
  }

  lemma {:induction false} BitIsShift(v: nat, k: nat)
    ensures BitSet(v, k) <==> Shr(v, k) % 2 == 1
  {
    if k > 0 { BitIsShift(v / 2, k - 1); }
  }

  lemma BitSetIs(v: nat)
    ensures BitSet(v, 0) <==> v % 2 == 1
    ensures BitSet(v, 1) <==> v / 2 % 2 == 1
    ensures BitSet(v, 2) <==> v / 4 % 2 == 1
    ensures BitSet(v, 3) <==> v / 8 % 2 == 1
    ensures BitSet(v, 4) <==> v / 16 % 2 == 1
    ensures BitSet(v, 5) <==> v / 32 % 2 == 1
    ensures BitSet(v, 6) <==> v / 64 % 2 == 1
  {
    hide BitSet, Pow2;
    SmallPowers();
    NextPower(1);
    NextPower(2);
    NextPower(4);
    NextPower(5);
    BitIs(v, 0, 1);
    BitIs(v, 1, 2);
    BitIs(v, 2, 4);
    BitIs(v, 3, 8);
    BitIs(v, 4, 16);
    BitIs(v, 5, 32);
    BitIs(v, 6, 64);
  }

  /** The prefixes in force, from the bytes: a run of legacy prefixes and a REX prefix behind it. */
  lemma PrefixMeaning(mode: Mode, buf: seq<byte>, n: nat)
    requires IsRun(buf, n) && !VexAt(mode, buf)
    ensures Prefixes(mode, buf, Start(mode)).Some?
    ensures var s := Prefixes(mode, buf, Start(mode)).value;
            var p := s.prefix;
            && s.i == (if RexAt(mode, buf, n) then n + 1 else n) && !s.vex && (s.rex <==> RexAt(mode, buf, n))
            && LegacyIs(mode, buf[..n], p) && p.operandSize == Promoted(mode, buf, n)
            && (p.rexW <==> RexBit(mode, buf, n, 8)) && (p.rexR <==> RexBit(mode, buf, n, 4))
            && (p.rexX <==> RexBit(mode, buf, n, 2)) && (p.rexB <==> RexBit(mode, buf, n, 1))
            && p.simdSize == 128 && p.escape == NoEscape && p.vvvv == None
  {
    assert OnlyLegacy(mode, buf[..0], Start(mode));
    var s := ScanLegacy(mode, buf, n, Start(mode));
    if n < |buf| { BitSetIs(buf[n] as nat); }
    hide BitSet, LegacyIs;
    if n < 15 { LastStep(mode, buf, n, s); }
  }

  lemma LastStep(mode: Mode, buf: seq<byte>, n: nat, s: Scan)
    requires IsRun(buf, n) && n < 15 && !VexAt(mode, buf) && s.i == n
    ensures PrefixStep(mode, buf, s) ==
            if RexAt(mode, buf, n) then Stop(Scan(n + 1, RexPrefix(s.prefix, buf[n] as nat), s.vex, true)) else Stop(s)
  {
    hide RexPrefix;
  }

  function MandatoryCode(v: nat): Simd {
    match v % 4 case 0 => NoSimd case 1 => P66 case 2 => F3 case _ => F2
  }

  /** What the multi-byte prefixes have in common; `l` is the byte with the vector length. */
  ghost predicate VectorIs(p: Prefix, v: nat, length: bool) {
    && p.simd == MandatoryCode(v) && p.simdSize == (if length then 256 else 128) && p.vvvv == Some(15 - v / 8 % 16)
    && p.operandSize == 32 && p.addressSize == 64 && p.segment == NoSegment && p.hint == NoHint
    && !p.lock && !p.repe && !p.repne
  }

  /** The two-byte VEX prefix. */
  lemma Vex2Meaning(buf: seq<byte>)
    requires |buf| > 0 && buf[0] == 0xc5
    ensures Prefixes(Long, buf, Start(Long)).Some? <==> |buf| >= 2
    ensures |buf| >= 2 ==>
              var s, v := Prefixes(Long, buf, Start(Long)).value, buf[1] as nat;
              && s.i == 2 && s.vex && s.rex && s.prefix.escape == E0F && VectorIs(s.prefix, v, v / 4 % 2 == 1)
              && (s.prefix.rexR <==> v / 64 % 2 == 0) && !s.prefix.rexW && !s.prefix.rexX && !s.prefix.rexB
  {
    if |buf| >= 2 { BitSetIs(buf[1] as nat); }
    hide BitSet;
  }

  /** The three-byte VEX prefix. */
  lemma Vex3Meaning(buf: seq<byte>)
    requires |buf| > 0 && buf[0] == 0xc4
    ensures Prefixes(Long, buf, Start(Long)).Some? <==> |buf| >= 3 && buf[1] as nat % 16 in {1, 2, 3}
    ensures |buf| >= 3 && buf[1] as nat % 16 in {1, 2, 3} ==>
              var s, m, v := Prefixes(Long, buf, Start(Long)).value, buf[1] as nat, buf[2] as nat;
              && s.i == 3 && s.vex && s.rex
              && s.prefix.escape == (match m % 16 case 1 => E0F case 2 => E0F38 case _ => E0F3A)
              && VectorIs(s.prefix, v, v / 4 % 2 == 1)
              && (s.prefix.rexR <==> m / 64 % 2 == 0) && (s.prefix.rexX <==> m / 32 % 2 == 0)
              && (s.prefix.rexB <==> m / 16 % 2 == 0) && (s.prefix.rexW <==> v / 64 % 2 == 0)
  {
    if |buf| >= 3 {
      BitSetIs(buf[1] as nat);
      BitSetIs(buf[2] as nat);
    }
    hide BitSet;
  }

  lemma EvexMeaning(buf: seq<byte>)
    requires |buf| > 0 && buf[0] == 0x62
    ensures Prefixes(Long, buf, Start(Long)).Some? <==> |buf| >= 4 && buf[1] as nat % 4 != 0
    ensures |buf| >= 4 && buf[1] as nat % 4 != 0 ==>
              var s, m, v := Prefixes(Long, buf, Start(Long)).value, buf[1] as nat, buf[2] as nat;
              && s.i == 4 && s.vex && s.rex
              && s.prefix.escape == (match m % 4 case 1 => E0F case 2 => E0F38 case _ => E0F3A)
              && VectorIs(s.prefix, v, buf[3] as nat / 32 % 2 == 1)
              && (s.prefix.rexR <==> m / 64 % 2 == 0) && (s.prefix.rexX <==> m / 32 % 2 == 0)
              && (s.prefix.rexB <==> m / 16 % 2 == 0) && (s.prefix.rexW <==> v / 64 % 2 == 0)
  {
    if |buf| >= 4 {
      BitSetIs(buf[1] as nat);
      BitSetIs(buf[2] as nat);
      BitSetIs(buf[3] as nat);
    }
    hide BitSet;
  }

  lemma XopMeaning(buf: seq<byte>)
    requires |buf| > 0 && buf[0] == 0x8f
    ensures Prefixes(Long, buf, Start(Long)).Some? <==> |buf| >= 3 && buf[1] as nat % 16 in {8, 9, 10}
    ensures |buf| >= 3 && buf[1] as nat % 16 in {8, 9, 10} ==>
              var s, m := Prefixes(Long, buf, Start(Long)).value, buf[1] as nat;
              && s.i == 3 && s.vex && !s.rex
              && s.prefix == Start(Long).prefix.(simd := MandatoryCode(buf[2] as nat), escape := s.prefix.escape)
              && s.prefix.escape == match m % 16 case 8 => Xop8 case 9 => Xop9 case _ => XopA
  {
  }

  /** In the two-byte form R is the inverted top bit of the byte. The code takes the bit below, which belongs to
    the register number in `vvvv`: R is set iff that number is at least 8, and the top bit does not matter. */
  lemma Vex2ReadsWrongBit(v: byte, w: byte, rest: seq<byte>)
    requires v as int % 128 == w as int % 128
    ensures var s := Prefixes(Long, [0xc5, v] + rest, Start(Long));
            && s.Some? && s.value.prefix.vvvv.Some?
            && (s.value.prefix.rexR <==> s.value.prefix.vvvv.value >= 8)
            && Prefixes(Long, [0xc5, w] + rest, Start(Long)) == s
  {
    var a, b: seq<byte> := [0xc5, v] + rest, [0xc5, w] + rest;
    assert a[0] == 0xc5 && a[1] == v && b[0] == 0xc5 && b[1] == w;
    Vex2Meaning(a);
    Vex2Meaning(b);
    hide Prefixes, MandatoryCode;
    SevenBits(v as nat, w as nat);
  }

  /** The fields of a byte below the top bit. */
  lemma SevenBits(v: nat, w: nat)
    requires v < 256 && w < 256 && v % 128 == w % 128
    ensures v / 64 % 2 == w / 64 % 2 && v / 8 % 16 == w / 8 % 16 && v / 4 % 2 == w / 4 % 2
    ensures MandatoryCode(v) == MandatoryCode(w) && (v / 64 % 2 == 0 <==> 15 - v / 8 % 16 >= 8)
  {
    BelowTop7(v);
    BelowTop7(w);
  }

  lemma BelowTop7(v: nat)
    requires v < 256
    ensures var u := v % 128;
            v / 64 % 2 == u / 64 && v / 8 % 16 == u / 8 && v / 4 % 2 == u / 4 % 2 && v % 4 == u % 4
  {
    if v >= 128 {
      var u := v - 128;
      assert v / 64 == u / 64 + 2;
      assert v / 8 == u / 8 + 16;
      assert v / 4 == u / 4 + 32;
    }
  }

  // ----- The opcode -----

  /** Behind the prefixes `s`, the opcode is at `i`, in the map `escape`. */
  predicate OpcodeAt(buf: seq<byte>, s: Scan, i: nat, escape: Escape) {
    if s.vex || At(buf, s.i) != Some(0x0f) then i == s.i && escape == s.prefix.escape
    else
      match At(buf, s.i + 1)
      case None => false
      case Some(b) =>
        if b == 0x38 || b == 0x3a then i == s.i + 2 && escape == if b == 0x38 then E0F38 else E0F3A
        else b != 0x0f && i == s.i + 1 && escape == E0F
  }

  /** The rows of eight two-byte opcodes that do not take a mandatory prefix. */
  predicate TakesNoPrefix(b: byte, simd: Simd) {
    var row := b as nat / 8;
    || row in {0, 1, 3, 4, 6, 7, 8, 9, 16, 17, 18, 19, 20, 21, 22, 25}
    || (row == 23 && simd != F3)
    || b == 0xc0 || b == 0xc1
  }

  lemma RowsAreRanges(b: byte, simd: Simd)
    ensures TakesNoPrefix(b, simd) <==> NoMandatoryPrefix(b as nat, simd)
  {
    var v := b as nat;
    var row := v / 8;
    assert 8 * row <= v < 8 * row + 8;
  }

  /** The prefixes `p` in force at opcode `b`, from the scanned ones: a mandatory prefix the opcode does not take is
    dropped, in all other cases LOCK and the repeats are; a mandatory 66 sets the operand size. */
  ghost predicate InForce(mode: Mode, s: Prefix, b: byte, p: Prefix) {
    var plain := p.escape == E0F && TakesNoPrefix(b, s.simd);
    && p.simd == (if plain then NoSimd else s.simd)
    && (p.lock <==> plain && s.lock) && (p.repe <==> plain && s.repe) && (p.repne <==> plain && s.repne)
    && p.operandSize == (if p.simd == P66 && p.escape in {E0F, E0F38, E0F3A}
                         then match mode case Real => 16 case Protected => 32 case Long => 64
                         else s.operandSize)
    && p.segment == s.segment && p.hint == s.hint && p.addressSize == s.addressSize && p.simdSize == s.simdSize
    && p.vvvv == s.vvvv && p.rexR == s.rexR && p.rexB == s.rexB && p.rexX == s.rexX && p.rexW == s.rexW
  }

  /** Where the opcode is, which prefixes are in force there and which table entry it has. */
  lemma LocateMeaning<S, O, R>(t: Tables<S, O, R>, mode: Mode, buf: seq<byte>)
    requires Locate(t, mode, buf).Some?
    ensures Prefixes(mode, buf, Start(mode)).Some?
    ensures var s, l := Prefixes(mode, buf, Start(mode)).value, Locate(t, mode, buf).value;
            var p, i := l.scan.prefix, l.scan.i;
            && l.scan.vex == s.vex && l.scan.rex == s.rex
            && i < |buf| && OpcodeAt(buf, s, i, p.escape) && InForce(mode, s.prefix, buf[i], p)
            && t.first(mode, p.escape, p.simd, buf[i]) == Some(l.entry)
  {
    hide Prefixes, Start, Escaped, Cleaned, Widened, InForce, OpcodeAt, AllButEscape;
    var s := Prefixes(mode, buf, Start(mode)).value;
    var s1 := Escaped(buf, s).value;
    EscapedIs(buf, s);
    InForceIs(mode, s1.prefix, buf[s1.i]);
    InForceFrom(mode, s.prefix, s1.prefix, buf[s1.i], Widened(Cleaned(s1.prefix, buf[s1.i] as nat), mode));
  }

  /** What the escape bytes leave alone. */
  predicate AllButEscape(p: Prefix, q: Prefix) {
    && q.lock == p.lock && q.repe == p.repe && q.repne == p.repne && q.segment == p.segment && q.hint == p.hint
    && q.operandSize == p.operandSize && q.addressSize == p.addressSize && q.simdSize == p.simdSize
    && q.simd == p.simd && q.vvvv == p.vvvv
    && q.rexR == p.rexR && q.rexB == p.rexB && q.rexX == p.rexX && q.rexW == p.rexW
  }

  lemma EscapedIs(buf: seq<byte>, s: Scan)
    requires Escaped(buf, s).Some? && Escaped(buf, s).value.prefix.escape != E0F0F
    ensures var s1 := Escaped(buf, s).value;
            && s1.vex == s.vex && s1.rex == s.rex && AllButEscape(s.prefix, s1.prefix)
            && OpcodeAt(buf, s, s1.i, s1.prefix.escape)
  {
    hide EscapeAt, OpcodeAt;
    EscapeAtIs(buf, s);
  }

  lemma EscapeAtIs(buf: seq<byte>, s: Scan)
    requires EscapeAt(buf, s).Some?
    ensures var (i, escape) := EscapeAt(buf, s).value; escape != E0F0F ==> OpcodeAt(buf, s, i, escape)
  {
  }

  /** Cleaning changes the mandatory prefix or the repeats, widening only the operand size. */
  lemma InForceIs(mode: Mode, s: Prefix, b: byte)
    ensures var q := Cleaned(s, b as nat);
            var p := Widened(q, mode);
            q.escape == p.escape == s.escape && q.simd == p.simd && InForce(mode, s, b, p)
  {
    hide NoMandatoryPrefix, TakesNoPrefix;
    RowsAreRanges(b, s.simd);
  }

  lemma InForceFrom(mode: Mode, s: Prefix, s1: Prefix, b: byte, p: Prefix)
    requires AllButEscape(s, s1) && InForce(mode, s1, b, p)
    ensures InForce(mode, s, b, p)
  {
    hide TakesNoPrefix;
  }

  /** There is no opcode iff the prefixes are ill-formed, the bytes run out, the opcode is a 3DNow! one or the
    tables have no entry. */
  lemma LocateFailsIff<S, O, R>(t: Tables<S, O, R>, mode: Mode, buf: seq<byte>)
    ensures Locate(t, mode, buf).Some? <==>
            && Prefixes(mode, buf, Start(mode)).Some?
            && var s := Prefixes(mode, buf, Start(mode)).value;
               exists i: nat, p: Prefix ::
                 && i < |buf| && OpcodeAt(buf, s, i, p.escape) && InForce(mode, s.prefix, buf[i], p)
                 && p.escape != E0F0F && t.first(mode, p.escape, p.simd, buf[i]).Some?
  {
    if Locate(t, mode, buf).Some? {
      LocateMeaning(t, mode, buf);
      LocateKnown(t, mode, buf);
    } else if Prefixes(mode, buf, Start(mode)).Some? {
      var s := Prefixes(mode, buf, Start(mode)).value;
      forall i: nat, p: Prefix
        | i < |buf| && OpcodeAt(buf, s, i, p.escape) && InForce(mode, s.prefix, buf[i], p) && p.escape != E0F0F
        ensures t.first(mode, p.escape, p.simd, buf[i]) == None
      {
        hide Prefixes, Start, NoMandatoryPrefix, TakesNoPrefix;
        RowsAreRanges(buf[i], s.prefix.simd);
      }
    }
  }

  lemma LocateKnown<S, O, R>(t: Tables<S, O, R>, mode: Mode, buf: seq<byte>)
    requires Locate(t, mode, buf).Some?
    ensures Locate(t, mode, buf).value.scan.prefix.escape != E0F0F
  {
    hide Prefixes, Start, NoMandatoryPrefix;
  }

  /** The entry for the byte behind the opcode, where the table asks for one. */
  ghost predicate Refines<S, O, R>(t: Tables<S, O, R>, mode: Mode, buf: seq<byte>, l: Located<S>, opcode: Opcode<S>,
                                   i: nat)
    requires l.scan.i < |buf|
  {
    var at := l.scan.i;
    match l.entry.spec
    case Single(_) => opcode == l.entry && i == at
    case UndefinedOpcode => false
    case Group(g) =>
      && at + 1 < |buf| && i == at
      && var simd := if l.scan.prefix.escape == NoEscape then NoSimd else l.scan.prefix.simd;
         t.group(g, buf[at], buf[at + 1], simd, mode, l.scan.vex) == Some(opcode)
    case EscapeOpcode =>
      && at + 1 < |buf|
      && var m := buf[at + 1] as nat;
         if m / 64 == 3 then i == at + 1 && t.x87Register(buf[at], m % 64) == Some(opcode)
         else i == at && t.x87Memory(buf[at], m / 8 % 8) == Some(opcode)
  }

  /** The operand size an opcode works with. */
  function Effective(size: nat, option: Only, mode: Mode): nat {
    if mode == Long && (option == Force64 || (option == Default64 && size == 32)) then 64 else size
  }

  predicate ValidIn(option: Only, mode: Mode) {
    (option == Only64 ==> mode == Long) && (option == Invalid64 ==> mode != Long)
  }

  /** The opcode that is decoded, and the prefixes it works with. */
  lemma SelectMeaning<S, O, R>(t: Tables<S, O, R>, mode: Mode, buf: seq<byte>, opcode: Opcode<S>, i: nat)
    requires Decoder.Select(t, mode, buf).Some? && Locate(t, mode, buf).Some?
    requires Refines(t, mode, buf, Locate(t, mode, buf).value, opcode, i)
    ensures var l, sel := Locate(t, mode, buf).value, Decoder.Select(t, mode, buf).value;
            var p := l.scan.prefix;
            && sel.opcode == opcode && ValidIn(opcode.option, mode) && opcode.spec.Single?
            && sel.scan == Scan(i, p.(operandSize := Effective(p.operandSize, opcode.option, mode)), l.scan.vex,
                                l.scan.rex)
  {
    hide Locate, Decoder.Select, Refine, Refines;
    SelectIs(t, mode, buf);
    RefineIs(t, mode, buf, Locate(t, mode, buf).value, opcode, i);
  }

  /** An instruction is decoded iff there is an opcode, and it is an instruction in this mode. */
  lemma SelectSucceedsIff<S, O, R>(t: Tables<S, O, R>, mode: Mode, buf: seq<byte>)
    ensures Decoder.Select(t, mode, buf).Some? <==>
            && Locate(t, mode, buf).Some?
            && exists o: Opcode<S>, k: nat ::
                 Refines(t, mode, buf, Locate(t, mode, buf).value, o, k) && ValidIn(o.option, mode) && o.spec.Single?
  {
    if Locate(t, mode, buf).Some? {
      var l := Locate(t, mode, buf).value;
      var r := Refine(t, mode, buf, l.scan, buf[l.scan.i], l.entry);
      SelectIs(t, mode, buf);
      hide Locate, Decoder.Select, Refine, Refines;
      if r.Some? {
        var o: Opcode<S>, k: nat := r.value.opcode, r.value.scan.i;
        RefineIs(t, mode, buf, l, o, k);
        assert Refines(t, mode, buf, l, o, k);
      }
      forall o: Opcode<S>, k: nat | Refines(t, mode, buf, l, o, k) ensures r.Some? && r.value.opcode == o {
        RefineIs(t, mode, buf, l, o, k);
      }
    }
  }

  /** An opcode that is not an instruction of this mode is refused; the others fix their operand size. */
  lemma SelectIs<S, O, R>(t: Tables<S, O, R>, mode: Mode, buf: seq<byte>)
    requires Locate(t, mode, buf).Some?
    ensures var l := Locate(t, mode, buf).value;
            var r := Refine(t, mode, buf, l.scan, buf[l.scan.i], l.entry);
            && (Decoder.Select(t, mode, buf).Some? <==>
                r.Some? && ValidIn(r.value.opcode.option, mode) && r.value.opcode.spec.Single?)
            && (Decoder.Select(t, mode, buf).Some? ==>
                  var sel, p := Decoder.Select(t, mode, buf).value, r.value.scan.prefix;
                  && sel.opcode == r.value.opcode
                  && sel.scan == r.value.scan.(prefix :=
                                   p.(operandSize := Effective(p.operandSize, sel.opcode.option, mode))))
  {
    hide Locate, Refine;
  }

  lemma RefineIs<S, O, R>(t: Tables<S, O, R>, mode: Mode, buf: seq<byte>, l: Located<S>, o: Opcode<S>, k: nat)
    requires l.scan.i < |buf|
    ensures var r := Refine(t, mode, buf, l.scan, buf[l.scan.i], l.entry);
            && (Refines(t, mode, buf, l, o, k) <==> r.Some? && r.value.opcode == o && r.value.scan == l.scan.(i := k))
            && (r.Some? ==> r.value.scan == l.scan.(i := r.value.scan.i))
  {
    if l.scan.i + 1 < |buf| {
      var m := buf[l.scan.i + 1] as nat;
      assert m / 64 == 3 <==> m >= 0xc0;
      assert m >= 0xc0 ==> m % 64 == m - 0xc0;
    }
  }
}
