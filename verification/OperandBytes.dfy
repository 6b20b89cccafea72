/** How many bytes the operands of an AMD64 instruction have, and what is read from them
  (amd64/src/disassembler.rs:2096-2140, 1406-1727, 2791-2820). */
module OperandBytes {
  import opened Il
  import opened Layers
  import opened Decoder

  // ----- ModR/M, SIB and displacement -----

  /** ModR/M byte `v` is followed by a SIB byte. */
  predicate HasSib(v: nat) {
    v / 64 != 3 && v % 8 == 4
  }

  /** The displacement that belongs to the SIB byte `s`: there is no base register. */
  function SibDisplacement(v: nat, s: nat): nat {
    if v / 64 == 0 && s % 8 == 5 then 4 else 0
  }

  /** The displacement behind ModR/M and SIB. */
  function OwnDisplacement(v: nat): nat {
    if v / 64 == 1 then 1
    else if v / 64 == 2 || (v / 64 == 0 && v % 8 == 5) then 4
    else 0
  }

  /** All bytes of an address operand with ModR/M byte `v` and SIB byte `s`. */
  function AddressBytes(v: nat, s: nat): nat {
    1 + (if v / 64 != 3 && v % 8 == 4 then 1 else 0) +
    (if v / 64 == 1 then 1
     else if v / 64 == 2 then 4
     else if v / 64 == 0 && (v % 8 == 5 || (v % 8 == 4 && s % 8 == 5)) then 4
     else 0)
  }

  function ByteAt(buf: seq<byte>, i: nat): nat {
    if i < |buf| then buf[i] as nat else 0
  }

  /** The fields of the ModR/M byte, extended by REX.R and REX.B; behind a SIB byte REX.B extends its base. */
  predicate FieldsOf(v: nat, rex: Option<Rex>, m: Modrm) {
    && m.mod_ == v / 64 && m.reg % 8 == v / 8 % 8 && m.rm % 8 == v % 8 && m.reg < 16 && m.rm < 16
    && (m.reg >= 8 <==> rex.Some? && rex.value.r)
    && (m.rm >= 8 <==> rex.Some? && rex.value.b && !HasSib(v))
  }

  lemma SplitIsFields(v: byte, rex: Option<Rex>)
    ensures FieldsOf(v as nat, rex, SplitModrm(v as nat, rex))
  {
    var m := SplitModrm(v as nat, rex);
    Plus8(v as nat / 8 % 8);
    Plus8(v as nat % 8);
  }

  lemma Plus8(x: nat)
    requires x < 8
    ensures (x + 8) % 8 == x
  {
  }

  /** The registers an address refers to exist. */
  predicate Registers<S, O, R>(t: Tables<S, O, R>, v: nat, s: nat, rex: Option<Rex>, addrsz: nat) {
    var b, x := if rex.Some? && rex.value.b then 8 else 0, if rex.Some? && rex.value.x then 8 else 0;
    if HasSib(v) then
      && (s % 8 == 5 || t.register(s % 8 + b, rex.Some?, addrsz))
      && (s / 8 % 8 == 4 || t.register(s / 8 % 8 + x, rex.Some?, addrsz))
    else v / 64 == 1 || v / 64 == 2 ==> t.register(v % 8 + b, rex.Some?, addrsz)
  }

  // ----- Operands one after the other -----

  /** What has been read so far: the position, the ModR/M byte and the SIB byte with its displacement. */
  datatype Seen = Seen(pos: nat, modrm: Option<byte>, sib: Option<Sib>)

  predicate Matches(tail: Tail, s: Seen, rex: Option<Rex>) {
    && tail.pos == s.pos && tail.sib == s.sib
    && tail.modrm == match s.modrm case None => None case Some(v) => Some(SplitModrm(v as nat, rex))
  }

  function ModrmOf(buf: seq<byte>, s: Seen): nat {
    if s.modrm.Some? then s.modrm.value as nat else ByteAt(buf, s.pos)
  }

  /** Where the SIB byte is, if it has not been read yet. */
  function SibPos(s: Seen): nat {
    if s.modrm.None? then s.pos + 1 else s.pos
  }

  /** The bytes an operand takes behind what has been read. */
  function Taken(buf: seq<byte>, l: Layout, s: Seen): nat {
    match l
    case Nothing => 0
    case Immediates(sizes) => Total(sizes)
    case InModrm => if s.modrm.None? then 1 else 0
    case Address =>
      var v := ModrmOf(buf, s);
      (if s.modrm.None? then 1 else 0) +
      (if HasSib(v) && s.sib.None? then 1 + SibDisplacement(v, ByteAt(buf, SibPos(s))) else 0) +
      OwnDisplacement(v)
  }

  function SibOf(buf: seq<byte>, s: Seen): Sib {
    match s.sib
    case Some(sib) => sib
    case None =>
      var p := SibPos(s);
      var d := SibDisplacement(ModrmOf(buf, s), ByteAt(buf, p));
      Sib(ByteAt(buf, p) as byte, if p + 1 + d <= |buf| then buf[p + 1..p + 1 + d] else [])
  }

  function Next(buf: seq<byte>, l: Layout, s: Seen): Seen {
    Seen(s.pos + Taken(buf, l, s),
         if l.InModrm? || l.Address? then Some(ModrmOf(buf, s) as byte) else s.modrm,
         if l.Address? && HasSib(ModrmOf(buf, s)) then Some(SibOf(buf, s)) else s.sib)
  }

  /** What is handed on for an operand. */
  function RawOf(buf: seq<byte>, l: Layout, s: Seen, rex: Option<Rex>): Raw {
    var end := s.pos + Taken(buf, l, s);
    var modrm := Some(SplitModrm(ModrmOf(buf, s), rex));
    match l
    case Nothing => Raw(None, None, [], end)
    case Immediates(_) => Raw(None, None, if end <= |buf| then buf[s.pos..end] else [], end)
    case InModrm => Raw(modrm, None, [], end)
    case Address =>
      var v := ModrmOf(buf, s);
      Raw(modrm, if HasSib(v) then Some(SibOf(buf, s)) else None,
          if end <= |buf| then buf[end - OwnDisplacement(v)..end] else [], end)
  }

  lemma {:induction false} ImmediatesAre(buf: seq<byte>, tail: Tail, sizes: seq<nat>)
    requires ReadImmediates(buf, tail, sizes).Some? && tail.pos <= |buf|
    ensures var (bs, tail') := ReadImmediates(buf, tail, sizes).value;
            && tail' == tail.(pos := tail.pos + Total(sizes)) && tail'.pos <= |buf|
            && bs == buf[tail.pos..tail'.pos]
    decreases sizes
  {
    if sizes != [] { ImmediatesAre(buf, ReadBytes(buf, tail, sizes[0]).value.1, sizes[1..]); }
  }

  lemma ModrmIs(buf: seq<byte>, tail: Tail, s: Seen, rex: Option<Rex>)
    requires Matches(tail, s, rex)
    ensures ReadModrm(buf, tail, rex).Some? <==> s.modrm.Some? || s.pos < |buf|
    ensures ReadModrm(buf, tail, rex).Some? ==>
              var v := ModrmOf(buf, s);
              ReadModrm(buf, tail, rex).value == (SplitModrm(v, rex), Tail(SibPos(s), Some(SplitModrm(v, rex)), s.sib))
  {
    hide SplitModrm;
  }

  /** The SIB byte, from the bytes. */
  lemma SibIs<S, O, R>(t: Tables<S, O, R>, buf: seq<byte>, tail: Tail, v: byte, rex: Option<Rex>, addrsz: nat)
    requires HasSib(v as nat) && tail.sib.None? && tail.pos <= |buf|
    ensures var p := tail.pos;
            var s := ByteAt(buf, p);
            var d := SibDisplacement(v as nat, s);
            && (ReadSib(t, buf, tail, v as nat / 64, rex, addrsz).Some? <==>
                p + 1 + d <= |buf| && Registers(t, v as nat, s, rex, addrsz))
            && (ReadSib(t, buf, tail, v as nat / 64, rex, addrsz).Some? ==>
                  var sib := Sib(s as byte, buf[p + 1..p + 1 + d]);
                  ReadSib(t, buf, tail, v as nat / 64, rex, addrsz).value ==
                  (sib, Tail(p + 1 + d, tail.modrm, Some(sib))))
  {
    if tail.pos < |buf| {
      var b := buf[tail.pos] as nat;
      Plus8(b % 8);
      Plus8(b / 8 % 8);
    }
  }

  lemma OwnIs(v: byte, rex: Option<Rex>)
    ensures Displacement(SplitModrm(v as nat, rex)) == OwnDisplacement(v as nat)
    ensures var m := SplitModrm(v as nat, rex); HasSib(v as nat) <==> m.mod_ != 3 && m.rm % 8 == 4
  {
    hide SplitModrm;
    SplitIsFields(v, rex);
  }

  /** An address operand, from the bytes: when it can be read, and what is read. */
  lemma AddressIs<S, O, R>(t: Tables<S, O, R>, buf: seq<byte>, tail: Tail, s: Seen, rex: Option<Rex>, addrsz: nat)
    requires Matches(tail, s, rex) && s.pos <= |buf| && ReadAddress(t, buf, tail, rex, addrsz).Some?
    ensures var (raw, tail') := ReadAddress(t, buf, tail, rex, addrsz).value;
            && tail'.pos <= |buf| && raw == RawOf(buf, Address, s, rex) && Matches(tail', Next(buf, Address, s), rex)
  {
    hide SplitModrm, ReadSib, Registers;
    ModrmIs(buf, tail, s, rex);
    var v := ModrmOf(buf, s);
    OwnIs(v as byte, rex);
    SplitIsFields(v as byte, rex);
    var tail1 := ReadModrm(buf, tail, rex).value.1;
    if HasSib(v) {
      if s.sib.None? {
        SibIs(t, buf, tail1, v as byte, rex, addrsz);
      } else {
        CachedSib(t, buf, tail1, v / 64, rex, addrsz);
      }
    }
  }

  lemma CachedSib<S, O, R>(t: Tables<S, O, R>, buf: seq<byte>, tail: Tail, mod_: nat, rex: Option<Rex>, addrsz: nat)
    requires tail.sib.Some?
    ensures ReadSib(t, buf, tail, mod_, rex, addrsz) == Some((tail.sib.value, tail))
  {
  }

  /** A first address operand at `pos`: it has `AddressBytes` bytes, and can be read iff they are all there and the
    registers exist. */
  lemma AddressMeaning<S, O, R>(t: Tables<S, O, R>, buf: seq<byte>, pos: nat, rex: Option<Rex>, addrsz: nat)
    requires pos <= |buf|
    ensures var v, s := ByteAt(buf, pos), ByteAt(buf, pos + 1);
            && (ReadAddress(t, buf, Tail(pos, None, None), rex, addrsz).Some? <==>
                pos + AddressBytes(v, s) <= |buf| && Registers(t, v, s, rex, addrsz))
            && (ReadAddress(t, buf, Tail(pos, None, None), rex, addrsz).Some? ==>
                  var (raw, tail') := ReadAddress(t, buf, Tail(pos, None, None), rex, addrsz).value;
                  && tail'.pos == raw.end == pos + AddressBytes(v, s)
                  && raw.modrm.Some? && FieldsOf(v, rex, raw.modrm.value)
                  && raw.bytes == buf[raw.end - OwnDisplacement(v)..raw.end]
                  && raw.sib == if HasSib(v) then Some(Sib(s as byte, buf[pos + 2..pos + 2 + SibDisplacement(v, s)]))
                                else None)
  {
    hide SplitModrm, ReadSib, Registers, ReadAddress, RawOf, Next;
    var tail, seen := Tail(pos, None, None), Seen(pos, None, None);
    AddressSucceeds(t, buf, pos, rex, addrsz);
    if ReadAddress(t, buf, tail, rex, addrsz).Some? {
      SplitIsFields(buf[pos], rex);
      AddressIs(t, buf, tail, seen, rex, addrsz);
      FirstRaw(buf, pos, rex);
    }
  }

  /** What `RawOf` is for a first operand. */
  lemma FirstRaw(buf: seq<byte>, pos: nat, rex: Option<Rex>)
    requires pos < |buf| && pos + AddressBytes(ByteAt(buf, pos), ByteAt(buf, pos + 1)) <= |buf|
    ensures var v, s, start := ByteAt(buf, pos), ByteAt(buf, pos + 1), Seen(pos, None, None);
            var raw := RawOf(buf, Address, start, rex);
            && Next(buf, Address, start).pos == raw.end == pos + AddressBytes(v, s)
            && raw.modrm == Some(SplitModrm(v, rex)) && raw.bytes == buf[raw.end - OwnDisplacement(v)..raw.end]
            && raw.sib == if HasSib(v) then Some(Sib(s as byte, buf[pos + 2..pos + 2 + SibDisplacement(v, s)]))
                          else None
  {
    hide SplitModrm;
  }

  lemma AddressSucceeds<S, O, R>(t: Tables<S, O, R>, buf: seq<byte>, pos: nat, rex: Option<Rex>, addrsz: nat)
    requires pos <= |buf|
    ensures var v, s := ByteAt(buf, pos), ByteAt(buf, pos + 1);
            ReadAddress(t, buf, Tail(pos, None, None), rex, addrsz).Some? <==>
            pos + AddressBytes(v, s) <= |buf| && Registers(t, v, s, rex, addrsz)
  {
    hide SplitModrm, ReadSib, Registers;
    var tail, seen := Tail(pos, None, None), Seen(pos, None, None);
    ModrmIs(buf, tail, seen, rex);
    if pos < |buf| {
      var v := buf[pos];
      SplitIsFields(v, rex);
      OwnIs(v, rex);
      var tail1 := ReadModrm(buf, tail, rex).value.1;
      if HasSib(v as nat) {
        SibIs(t, buf, tail1, v, rex, addrsz);
      } else {
        NoSibRegisters(t, v, ByteAt(buf, pos + 1), rex, addrsz);
      }
    }
  }

  lemma NoSibRegisters<S, O, R>(t: Tables<S, O, R>, v: byte, s: nat, rex: Option<Rex>, addrsz: nat)
    requires !HasSib(v as nat)
    ensures var m := SplitModrm(v as nat, rex);
            Registers(t, v as nat, s, rex, addrsz) <==>
            (m.mod_ == 1 || m.mod_ == 2 ==> t.register(m.rm, rex.Some?, addrsz))
  {
  }

  /** What is read for an operand of any layout. */
  lemma RawIs<S, O, R>(t: Tables<S, O, R>, buf: seq<byte>, tail: Tail, l: Layout, s: Seen, rex: Option<Rex>,
                       addrsz: nat)
    requires Matches(tail, s, rex) && s.pos <= |buf| && ReadRaw(t, buf, tail, l, rex, addrsz).Some?
    ensures var (raw, tail') := ReadRaw(t, buf, tail, l, rex, addrsz).value;
            tail'.pos <= |buf| && raw == RawOf(buf, l, s, rex) && Matches(tail', Next(buf, l, s), rex)
  {
    hide SplitModrm, ReadImmediates, ReadAddress, Total;
    match l
    case Nothing =>
    case Immediates(sizes) => ImmediatesAre(buf, tail, sizes);
    case InModrm => ModrmIs(buf, tail, s, rex);
    case Address => AddressIs(t, buf, tail, s, rex, addrsz);
  }

  /** The layouts of the operands under the prefixes in force. */
  ghost predicate Layouts<S, O, R>(t: Tables<S, O, R>, p: Prefix, specs: seq<S>, ls: seq<Layout>) {
    && |ls| == |specs|
    && forall j :: 0 <= j < |specs| ==> t.layout(specs[j], p.operandSize, p.addressSize, p.vvvv.Some?) == Some(ls[j])
  }

  /** What has been read after operands of these layouts. */
  function After(buf: seq<byte>, ls: seq<Layout>, s: Seen): Seen {
    if ls == [] then s
    else
      var k := |ls| - 1;
      Next(buf, ls[k], After(buf, ls[..k], s))
  }

  /** `o` is what the tables make of the bytes of an operand of layout `l`. */
  ghost predicate Makes<S, O, R>(t: Tables<S, O, R>, mode: Mode, buf: seq<byte>, sel: Scan, spec: S, l: Layout, s: Seen,
                                 ip: nat, o: O) {
    t.operand(spec, RawOf(buf, l, s, RexOf(sel)), mode, sel.prefix, RexOf(sel), ip) == Some(o)
  }

  /** Operand by operand, each behind what the ones before it have read. */
  ghost predicate AllMade<S, O, R>(t: Tables<S, O, R>, mode: Mode, buf: seq<byte>, sel: Scan, specs: seq<S>,
                                   ls: seq<Layout>, s: Seen, ip: nat, os: seq<O>)
    requires |ls| == |specs| == |os|
  {
    specs != [] ==>
      var k := |specs| - 1;
      && Makes(t, mode, buf, sel, specs[k], ls[k], After(buf, ls[..k], s), ip, os[k])
      && AllMade(t, mode, buf, sel, specs[..k], ls[..k], s, ip, os[..k])
  }

  lemma OperandIs<S, O, R>(t: Tables<S, O, R>, mode: Mode, buf: seq<byte>, sel: Scan, spec: S, l: Layout, tail: Tail,
                           s: Seen, ip: nat)
    requires ReadOperand(t, mode, buf, sel, spec, tail, ip).Some?
    requires var p := sel.prefix; t.layout(spec, p.operandSize, p.addressSize, p.vvvv.Some?) == Some(l)
    requires Matches(tail, s, RexOf(sel)) && s.pos <= |buf|
    ensures var (o, tail') := ReadOperand(t, mode, buf, sel, spec, tail, ip).value;
            && tail'.pos <= |buf| && Matches(tail', Next(buf, l, s), RexOf(sel))
            && Makes(t, mode, buf, sel, spec, l, s, ip, o)
  {
    hide ReadRaw, RawOf, Next, Matches, RexOf;
    RawIs(t, buf, tail, l, s, RexOf(sel), sel.prefix.addressSize);
  }

  lemma SamePosition(tail: Tail, s: Seen, rex: Option<Rex>)
    requires Matches(tail, s, rex)
    ensures tail.pos == s.pos
  {
  }

  /** The operands, one after the other. */
  lemma {:induction false} OperandsAre<S, O, R>(t: Tables<S, O, R>, mode: Mode, buf: seq<byte>, sel: Scan,
                                                specs: seq<S>, ls: seq<Layout>, tail: Tail, s: Seen, ip: nat)
    requires ReadOperands(t, mode, buf, sel, specs, tail, ip).Some? && Layouts(t, sel.prefix, specs, ls)
    requires Matches(tail, s, RexOf(sel)) && s.pos <= |buf|
    ensures var (os, tail') := ReadOperands(t, mode, buf, sel, specs, tail, ip).value;
            && tail'.pos <= |buf| && Matches(tail', After(buf, ls, s), RexOf(sel)) && |os| == |specs|
            && AllMade(t, mode, buf, sel, specs, ls, s, ip, os)
    decreases |specs|
  {
    if specs != [] {
      hide ReadOperand, Makes, Next, Matches, RexOf;
      var k := |specs| - 1;
      OperandsAre(t, mode, buf, sel, specs[..k], ls[..k], tail, s, ip);
      var (os, tail1) := ReadOperands(t, mode, buf, sel, specs[..k], tail, ip).value;
      SamePosition(tail1, After(buf, ls[..k], s), RexOf(sel));
      OperandIs(t, mode, buf, sel, specs[k], ls[k], tail1, After(buf, ls[..k], s), ip);
      var o := ReadOperand(t, mode, buf, sel, specs[k], tail1, ip).value.0;
      assert (os + [o])[..k] == os;
    }
  }

  // ----- Whole instructions -----

  lemma {:induction false} LayoutsExist<S, O, R>(t: Tables<S, O, R>, mode: Mode, buf: seq<byte>, sel: Scan,
                                                 specs: seq<S>, tail: Tail, ip: nat) returns (ls: seq<Layout>)
    requires ReadOperands(t, mode, buf, sel, specs, tail, ip).Some?
    ensures Layouts(t, sel.prefix, specs, ls)
    decreases |specs|
  {
    ls := [];
    if specs != [] {
      var k, p := |specs| - 1, sel.prefix;
      ls := LayoutsExist(t, mode, buf, sel, specs[..k], tail, ip);
      forall j | 0 <= j < k
        ensures t.layout(specs[j], p.operandSize, p.addressSize, p.vvvv.Some?) == Some(ls[j])
      {
        assert specs[..k][j] == specs[j];
      }
      ls := ls + [t.layout(specs[k], p.operandSize, p.addressSize, p.vvvv.Some?).value];
    }
  }

  /** A decoded instruction: its length is the position behind the opcode plus the bytes of its operands in order,
    and its result is what the tables make of them. */
  lemma DecodeMeaning<S, O, R>(t: Tables<S, O, R>, mode: Mode, buf: seq<byte>, addr: nat)
    returns (ls: seq<Layout>, os: seq<O>)
    requires Decode(t, mode, buf, addr).Some?
    ensures Decoder.Select(t, mode, buf).Some?
    ensures var d, sel := Decode(t, mode, buf, addr).value, Decoder.Select(t, mode, buf).value;
            var specs, at := sel.opcode.operands, sel.scan.i + 1;
            var start := Seen(at, None, None);
            && Layouts(t, sel.scan.prefix, specs, ls) && d.len == After(buf, ls, start).pos <= |buf| && |os| == |specs|
            && AllMade(t, mode, buf, sel.scan, specs, ls, start, addr + at, os)
            && t.semantics(sel.opcode, os, d.len) == Some(d.result)
  {
    hide ReadOperands, Decoder.Select, AllMade, After, Layouts;
    var sel := Decoder.Select(t, mode, buf).value;
    var i := sel.scan.i;
    SelectLocal(t, mode, buf, buf, 0);
    var tail, start := Tail(i + 1, None, None), Seen(i + 1, None, None);
    ls := LayoutsExist(t, mode, buf, sel.scan, sel.opcode.operands, tail, addr + i + 1);
    OperandsAre(t, mode, buf, sel.scan, sel.opcode.operands, ls, tail, start, addr + i + 1);
    os := ReadOperands(t, mode, buf, sel.scan, sel.opcode.operands, tail, addr + i + 1).value.0;
  }

  // ----- The usual order: registers, the address, immediates -----

  predicate InRegisters(ls: seq<Layout>) {
    forall j :: 0 <= j < |ls| ==> ls[j].Nothing? || ls[j].InModrm?
  }

  predicate NoAddress(ls: seq<Layout>) {
    forall j :: 0 <= j < |ls| ==> !ls[j].Address?
  }

  function ImmediateBytes(ls: seq<Layout>): nat {
    if ls == [] then 0
    else
      var k := |ls| - 1;
      ImmediateBytes(ls[..k]) + if ls[k].Immediates? then Total(ls[k].sizes) else 0
  }

  lemma {:induction false} AfterRegisters(buf: seq<byte>, ls: seq<Layout>, pos: nat)
    requires InRegisters(ls) && pos < |buf|
    ensures var s := After(buf, ls, Seen(pos, None, None));
            s == Seen(pos, None, None) || s == Seen(pos + 1, Some(buf[pos]), None)
    decreases |ls|
  {
    if ls != [] { AfterRegisters(buf, ls[..|ls| - 1], pos); }
  }

  lemma {:induction false} AfterAddress(buf: seq<byte>, ls: seq<Layout>, s: Seen)
    requires NoAddress(ls) && s.modrm.Some?
    ensures After(buf, ls, s) == s.(pos := s.pos + ImmediateBytes(ls))
    decreases |ls|
  {
    if ls != [] { AfterAddress(buf, ls[..|ls| - 1], s); }
  }

  lemma {:induction false} AfterAppend(buf: seq<byte>, xs: seq<Layout>, ys: seq<Layout>, s: Seen)
    ensures After(buf, xs + ys, s) == After(buf, ys, After(buf, xs, s))
    decreases |ys|
  {
    if ys == [] {
      assert xs + ys == xs;
    } else {
      var k := |ys| - 1;
      assert (xs + ys)[..|xs + ys| - 1] == xs + ys[..k];
      AfterAppend(buf, xs, ys[..k], s);
    }
  }

  /** With one address operand, behind register operands and in front of immediates, the length is that of the
    opcode, `AddressBytes` for the two bytes behind it, and the immediates. */
  lemma LengthWithAddress(buf: seq<byte>, pre: seq<Layout>, post: seq<Layout>, pos: nat)
    requires InRegisters(pre) && NoAddress(post) && pos < |buf|
    ensures After(buf, pre + [Address] + post, Seen(pos, None, None)).pos ==
            pos + AddressBytes(buf[pos] as nat, ByteAt(buf, pos + 1)) + ImmediateBytes(post)
  {
    var start := Seen(pos, None, None);
    AfterAppend(buf, pre + [Address], post, start);
    AfterAppend(buf, pre, [Address], start);
    AfterRegisters(buf, pre, pos);
    var s := After(buf, pre, start);
    assert After(buf, [Address], s) == Next(buf, Address, s) by { assert [Address][..0] == []; }
    hide After;
    AfterAddress(buf, post, Next(buf, Address, s));
    AddressTaken(buf, pos, s);
  }

  lemma AddressTaken(buf: seq<byte>, pos: nat, s: Seen)
    requires pos < |buf| && (s == Seen(pos, None, None) || s == Seen(pos + 1, Some(buf[pos]), None))
    ensures Next(buf, Address, s).pos == pos + AddressBytes(buf[pos] as nat, ByteAt(buf, pos + 1))
    ensures Next(buf, Address, s).modrm.Some?
  {
  }

  /** 8B 45 08, with mov as in the tables: one byte of displacement, three bytes in all. */
  lemma MovFromFrame<S, O, R>(t: Tables<S, O, R>, addr: nat, mov: Opcode<S>, g: S, e: S, x: O, y: O, r: R)
    requires t.first(Long, NoEscape, NoSimd, 0x8b) == Some(mov) && mov == Opcode(Single("mov"), NoOption, [g, e])
    requires t.layout(g, 32, 64, false) == Some(InModrm) && t.layout(e, 32, 64, false) == Some(Address)
    requires t.register(5, false, 64)
    requires var p, m := Start(Long).prefix, Some(Modrm(1, 0, 5));
             && t.operand(g, Raw(m, None, [], 2), Long, p, None, addr + 1) == Some(x)
             && t.operand(e, Raw(m, None, [0x08], 3), Long, p, None, addr + 1) == Some(y)
    requires t.semantics(mov, [x, y], 3) == Some(r)
    ensures Decode(t, Long, [0x8b, 0x45, 0x08], addr) == Some(Decoded(3, r, 3))
  {
    var buf: seq<byte> := [0x8b, 0x45, 0x08];
    var s := Start(Long);
    assert PrefixStep(Long, buf, s) == Stop(s);
    assert Prefixes(Long, buf, s) == Some(s);
    assert Escaped(buf, s).value.prefix == s.prefix;
    assert Decoder.Select(t, Long, buf) == Some(Selected(s, mov, 1));
    var tail, m := Tail(1, None, None), SplitModrm(0x45, None);
    assert m == Modrm(1, 0, 5);
    var tail1, tail2 := Tail(2, Some(m), None), Tail(3, Some(m), None);
    assert ReadModrm(buf, tail, None) == Some((m, tail1));
    assert ReadOperand(t, Long, buf, s, g, tail, addr + 1) == Some((x, tail1));
    assert buf[2..3] == [0x08];
    assert ReadBytes(buf, tail1, 1) == Some(([0x08], tail2));
    assert ReadAddress(t, buf, tail1, None, 64) == Some((Raw(Some(m), None, [0x08], 3), tail2));
    assert ReadOperand(t, Long, buf, s, e, tail1, addr + 1) == Some((y, tail2));
    TwoOperands(t, buf, s, g, e, tail, tail1, tail2, x, y, addr + 1);
  }

  lemma TwoOperands<S, O, R>(t: Tables<S, O, R>, buf: seq<byte>, s: Scan, g: S, e: S, tail: Tail, tail1: Tail,
                             tail2: Tail, x: O, y: O, ip: nat)
    requires ReadOperand(t, Long, buf, s, g, tail, ip) == Some((x, tail1))
    requires ReadOperand(t, Long, buf, s, e, tail1, ip) == Some((y, tail2))
    ensures ReadOperands(t, Long, buf, s, [g, e], tail, ip) == Some(([x, y], tail2))
  {
    hide ReadOperand;
    assert [g, e][..1] == [g] && [g][..0] == [];
    assert [] + [x] == [x] && [x] + [y] == [x, y];
    assert ReadOperands(t, Long, buf, s, [g][..0], tail, ip) == Some(([], tail));
    assert ReadOperands(t, Long, buf, s, [g], tail, ip) == Some(([x], tail1));
  }
}
