/** `Amd64::decode` (amd64/src/architecture.rs:57-82): the decoder on top of a region's cells. */
module Amd64 {
  import opened Il
  import opened Layers
  import opened Region
  import opened Decoder

  /** A match: the tokens consumed and what they mean. */
  datatype Match<R> = Match(tokens: seq<byte>, result: R)

  function Matched<R>(buf: seq<byte>, d: Option<Decoded<R>>): Option<Match<R>> {
    match d
    case None => None
    case Some(d) => if d.len <= |buf| then Some(Match(buf[..d.len], d.result)) else None
  }

  /** The match, if any, is what the decoder makes of the window at `start`; its tokens are the first cells there. */
  method DecodeAt<S, O, R>(t: Tables<S, O, R>, mode: Mode, data: Iter, start: nat) returns (r: Option<Match<R>>)
    ensures forall w :: IsWindow(Contents(data), start, w) ==> Matches(w, Decode(t, mode, w, start), r)
  {
    hide Decode;
    var buf := Fetch(data, start);
    var d := Decode(t, mode, buf, start);
    if d.Some? { DecodeStable(t, mode, buf, [], start); }
    r := Matched(buf, d);
    forall w | IsWindow(Contents(data), start, w) ensures w == buf {
      WindowUnique(Contents(data), start, w, buf);
    }
  }

  /** A match for the window exactly if it decodes, with its first `len` bytes as tokens. */
  ghost predicate Matches<R>(w: seq<byte>, d: Option<Decoded<R>>, r: Option<Match<R>>) {
    && (r.Some? <==> d.Some?)
    && (r.Some? ==> r.value.result == d.value.result)
    && (r.Some? ==> r.value.tokens <= w && 1 <= |r.value.tokens| == d.value.len <= 15)
  }

  /** `n` cells from `start` on are the same, as far as `cells` reaches. */
  ghost predicate AgreeFrom(cells: seq<Cell>, cells': seq<Cell>, start: nat, n: nat) {
    forall k :: start <= k < |cells| && k < start + n ==> k < |cells'| && cells'[k] == cells[k]
  }

  /** Changing cells behind the bytes the decoder looked at does not change the instruction. */
  lemma DecodeIgnoresOtherCells<S, O, R>(t: Tables<S, O, R>, mode: Mode, start: nat,
                                         cells: seq<Cell>, w: seq<byte>, cells': seq<Cell>, w': seq<byte>)
    requires IsWindow(cells, start, w) && IsWindow(cells', start, w') && Decode(t, mode, w, start).Some?
    requires AgreeFrom(cells, cells', start, Decode(t, mode, w, start).value.looked)
    ensures Decode(t, mode, w', start) == Decode(t, mode, w, start)
  {
    hide Decode;
    var d := Decode(t, mode, w, start).value;
    DecodeLocal(t, mode, w, w, start, 0);
    SameWindow(cells, w, cells', w', start, d.looked, d.looked - 1);
    forall j | 0 <= j < d.looked ensures w'[j] == w[j] {
      SameWindow(cells, w, cells', w', start, d.looked, j);
    }
    DecodeLocal(t, mode, w, w', start, d.looked);
  }

  lemma {:induction false} SameWindow(cells: seq<Cell>, w: seq<byte>, cells': seq<Cell>, w': seq<byte>, start: nat,
                                      n: nat, j: nat)
    requires IsWindow(cells, start, w) && IsWindow(cells', start, w') && j < n <= |w|
    requires AgreeFrom(cells, cells', start, n)
    ensures j < |w'| && w'[j] == w[j]
  {
    WindowCell(cells, start, w, j);
    if j < |w'| {
      WindowCell(cells', start, w', j);
    } else {
      WindowCell(cells, start, w, |w'|);
    }
  }
}
