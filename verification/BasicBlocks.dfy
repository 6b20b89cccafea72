/** Basic blocks and the iterator over their statements (core/src/basic_block.rs). */
module BasicBlocks {
  import opened Il

  datatype Bound = Bound(start: nat, end: nat)

  datatype Mnemonic<S> = Mnemonic(area: Bound, instructions: seq<S>)

  /** All statements, in the order of the mnemonics. */
  function Flat<S>(ms: seq<Mnemonic<S>>): seq<S> {
    if ms == [] then [] else ms[0].instructions + Flat(ms[1..])
  }

  function Reversed<S>(s: seq<S>): seq<S> {
    if s == [] then [] else Reversed(s[1..]) + [s[0]]
  }

  lemma {:induction false} FlatAppend<S>(a: seq<Mnemonic<S>>, b: seq<Mnemonic<S>>)
    ensures Flat(a + b) == Flat(a) + Flat(b)
  {
    if a == [] {
      assert a + b == b;
    } else {
      assert (a + b)[1..] == a[1..] + b;
      FlatAppend(a[1..], b);
    }
  }

  lemma {:induction false} ReversedAppend<S>(a: seq<S>, b: seq<S>)
    ensures Reversed(a + b) == Reversed(b) + Reversed(a)
  {
    if a == [] {
      assert a + b == b;
    } else {
      assert (a + b)[1..] == a[1..] + b;
      ReversedAppend(a[1..], b);
    }
  }

  lemma {:induction false} FlatNone<S>(ms: seq<Mnemonic<S>>, k: nat)
    requires k < |ms|
    ensures Flat(ms[..k + 1]) == Flat(ms[..k]) + ms[k].instructions
  {
    assert ms[..k + 1] == ms[..k] + [ms[k]];
    FlatAppend(ms[..k], [ms[k]]);
    assert Flat([ms[k]]) == ms[k].instructions + Flat([]);
  }

  // ----- The iterator -----

  class StatementIterator<S> {
    /** Mnemonics not yet opened, and what is left of the current one. */
    var mnemonics: seq<Mnemonic<S>>
    var statements: Option<seq<S>>

    /** The statements still to come. */
    ghost function Rest(): seq<S>
      reads this
    {
      (if statements.Some? then statements.value else []) + Flat(mnemonics)
    }

    constructor (ms: seq<Mnemonic<S>>)
      ensures Rest() == Flat(ms)
    {
      mnemonics := ms;
      statements := None;
    }

    /** Opens mnemonics until one has a statement. */
    method GetNext() returns (s: Option<S>)
      requires statements.Some? ==> statements.value == []
      modifies this
      ensures old(Rest()) == [] ==> s == None && Rest() == []
      ensures old(Rest()) != [] ==> s == Some(old(Rest())[0]) && Rest() == old(Rest())[1..]
    {
      s := None;
      while s.None?
        invariant s.None? ==> (statements.Some? ==> statements.value == []) && Rest() == old(Rest())
        invariant s.Some? ==> [s.value] + Rest() == old(Rest())
        decreases s.None?, |mnemonics|
      {
        if mnemonics == [] { return None; }
        var instructions := mnemonics[0].instructions;
        if instructions == [] {
          statements := Some([]);
        } else {
          s := Some(instructions[0]);
          statements := Some(instructions[1..]);
        }
        mnemonics := mnemonics[1..];
      }
    }

    method Next() returns (s: Option<S>)
      modifies this
      ensures old(Rest()) == [] ==> s == None && Rest() == []
      ensures old(Rest()) != [] ==> s == Some(old(Rest())[0]) && Rest() == old(Rest())[1..]
    {
      if statements.Some? && statements.value != [] {
        s := Some(statements.value[0]);
        statements := Some(statements.value[1..]);
      } else {
        s := GetNext();
      }
    }

    /** Draining yields all remaining statements in order. */
    method Drain() returns (all: seq<S>)
      modifies this
      ensures all == old(Rest()) && Rest() == []
    {
      all := [];
      var s := Next();
      while s.Some?
        invariant s.Some? ==> all + [s.value] + Rest() == old(Rest())
        invariant s.None? ==> all == old(Rest()) && Rest() == []
        decreases s.Some?, |Rest()|
      {
        all := all + [s.value];
        s := Next();
      }
    }
  }

  // ----- Visiting -----

  /** The statements `execute` calls its closure on. */
  method Visit<S>(ms: seq<Mnemonic<S>>) returns (visited: seq<S>)
    ensures visited == Flat(ms)
  {
    visited := [];
    for k := 0 to |ms|
      invariant visited == Flat(ms[..k])
    {
      FlatNone(ms, k);
      for j := 0 to |ms[k].instructions|
        invariant visited == Flat(ms[..k]) + ms[k].instructions[..j]
      {
        visited := visited + [ms[k].instructions[j]];
      }
    }
    assert ms[..|ms|] == ms;
  }

  /** `execute_backwards` visits them in exactly the opposite order. */
  method VisitBackwards<S>(ms: seq<Mnemonic<S>>) returns (visited: seq<S>)
    ensures visited == Reversed(Flat(ms))
  {
    visited := [];
    for k := |ms| downto 0
      invariant visited == Reversed(Flat(ms[k..]))
    {
      var code := ms[k].instructions;
      for j := |code| downto 0
        invariant visited == Reversed(Flat(ms[k + 1..])) + Reversed(code[j..])
      {
        visited := visited + [code[j]];
        assert code[j..] == [code[j]] + code[j + 1..];
        assert Reversed(code[j..]) == Reversed(code[j + 1..]) + [code[j]];
      }
      assert code[0..] == code;
      ReversedAppend(code, Flat(ms[k + 1..]));
      assert Flat(ms[k..]) == code + Flat(ms[k + 1..]) by { assert ms[k..][1..] == ms[k + 1..]; }
    }
    assert ms[0..] == ms;
  }

  // ----- The area of a block -----

  /** `from_vec`: the smallest area around all mnemonics. */
  method Hull<S>(ms: seq<Mnemonic<S>>) returns (area: Bound)
    ensures ms == [] ==> area == Bound(0, 0)
    ensures ms != [] ==>
              exists i, j :: 0 <= i < |ms| && 0 <= j < |ms| && area == Bound(ms[i].area.start, ms[j].area.end)
    ensures forall k :: 0 <= k < |ms| ==> area.start <= ms[k].area.start && ms[k].area.end <= area.end
    ensures ms != [] && Contiguous(ms) ==> area == Bound(ms[0].area.start, ms[|ms| - 1].area.end)
  {
    var acc: Option<Bound> := None;
    ghost var i, j := 0, 0;
    for n := 0 to |ms|
      invariant (n == 0 <==> acc.None?) && (n == 0 ==> i == 0 && j == 0)
      invariant n > 0 ==> 0 <= i < n && 0 <= j < n && acc == Some(Bound(ms[i].area.start, ms[j].area.end))
      invariant forall k :: 0 <= k < n ==> acc.value.start <= ms[k].area.start && ms[k].area.end <= acc.value.end
    {
      var b := ms[n].area;
      match acc {
        case None => acc := Some(b);
        case Some(a) =>
          if b.start < a.start { i := n; }
          if b.end > a.end { j := n; }
          acc := Some(Bound(if a.start < b.start then a.start else b.start, if a.end > b.end then a.end else b.end));
      }
    }
    area := if acc.Some? then acc.value else Bound(0, 0);
    if ms != [] && Contiguous(ms) {
      Ascending(ms, 0, i);
      Ascending(ms, j, |ms| - 1);
    }
  }

  /** Each mnemonic starts where its predecessor ends, and none ends before it starts. */
  ghost predicate Contiguous<S>(ms: seq<Mnemonic<S>>) {
    && (forall k :: 0 <= k < |ms| ==> ms[k].area.start <= ms[k].area.end)
    && (forall k :: 0 < k < |ms| ==> ms[k].area.start == ms[k - 1].area.end)
  }

  lemma {:induction false} Ascending<S>(ms: seq<Mnemonic<S>>, i: nat, j: nat)
    requires Contiguous(ms) && i <= j < |ms|
    ensures ms[i].area.start <= ms[j].area.start && ms[i].area.end <= ms[j].area.end
    decreases j - i
  {
    if i < j {
      Ascending(ms, i, j - 1);
      assert ms[j].area.start == ms[j - 1].area.end;
    }
  }
}
