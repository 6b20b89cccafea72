/** Cells, layers and the lazy iterator over them (core/src/layer.rs). */
module Layers {
  import opened Il

  newtype byte = x: int | 0 <= x < 256

  /** A single, possibly undefined, byte. */
  type Cell = Option<byte>

  /** `LayerIter`: undefined cells, a slice of bytes (None once it is exhausted), single cells laid over
    another iterator from position `pos` on, or one iterator after another. */
  datatype Iter =
    | Blank(count: nat)
    | Bytes(data: Option<seq<byte>>)
    | Sparse(over: map<nat, Cell>, mapped: Iter, pos: nat)
    | Concat(car: Iter, cdr: Iter)

  /** `OpaqueLayer` and `Layer`. */
  datatype OpaqueLayer = UndefinedLayer(size: nat) | DefinedLayer(bytes: seq<byte>)
  datatype Layer = Opaque(base: OpaqueLayer) | Writable(cells: map<nat, Cell>)

  // ----- The meaning of an iterator: a plain sequence of cells -----

  function Overlay(over: map<nat, Cell>, pos: nat, cells: seq<Cell>): (r: seq<Cell>)
    ensures |r| == |cells|
  {
    seq(|cells|, i requires 0 <= i < |cells| => if pos + i in over then over[pos + i] else cells[i])
  }

  function Defined(bytes: seq<byte>): (r: seq<Cell>)
    ensures |r| == |bytes|
  {
    seq(|bytes|, i requires 0 <= i < |bytes| => Some(bytes[i]))
  }

  function Contents(it: Iter): seq<Cell> {
    match it
    case Blank(n) => seq(n, i => None)
    case Bytes(None) => []
    case Bytes(Some(b)) => Defined(b)
    case Sparse(m, inner, pos) => Overlay(m, pos, Contents(inner))
    case Concat(a, b) => Contents(a) + Contents(b)
  }

  // ----- The operations -----

  function Len(it: Iter): (r: nat)
    ensures r == |Contents(it)|
  {
    match it
    case Blank(n) => n
    case Bytes(None) => 0
    case Bytes(Some(b)) => |b|
    case Sparse(_, inner, _) => Len(inner)
    case Concat(a, b) => Len(a) + Len(b)
  }

  /** The next cell, None at the end, and the iterator behind it. */
  function Next(it: Iter): (r: (Option<Cell>, Iter)) {
    match it
    case Blank(n) => if n == 0 then (None, it) else (Some(None), Blank(n - 1))
    case Bytes(None) => (None, it)
    case Bytes(Some(b)) =>
      (if |b| > 0 then Some(Some(b[0])) else None, Bytes(if |b| > 1 then Some(b[1..]) else None))
    case Sparse(m, inner, pos) =>
      var (c, rest) := Next(inner);
      if c.Some? then (Some(if pos in m then m[pos] else c.value), Sparse(m, rest, pos + 1))
      else (None, Sparse(m, rest, pos))
    case Concat(a, b) =>
      var (c, a') := Next(a);
      if c.Some? then (c, Concat(a', b))
      else var (d, b') := Next(b); (d, Concat(a', b'))
  }

  /** The cells from `start` up to `end`; None stands for a panic. */
  function Cut(it: Iter, start: nat, end: nat): Option<Iter> {
    if start >= end then Some(Bytes(None))
    else
      var last := if end > Len(it) then Len(it) else end;
      match it
      case Blank(_) => if last < start then None else Some(Blank(last - start))
      case Bytes(None) => Some(Bytes(None))
      case Bytes(Some(b)) => if last < start then None else Some(Bytes(Some(b[start..last])))
      case Sparse(m, inner, pos) =>
        (match Cut(inner, start, end)
         case None => None
         case Some(c) => Some(Sparse(m, c, pos + start)))
      case Concat(a, b) =>
        if start < Len(a) && last <= Len(a) then Cut(a, start, end)
        else if start >= Len(a) && last > Len(a) then Cut(b, start - Len(a), last - Len(a))
        else if last < Len(a) then None
        else
          match (Cut(a, start, Len(a)), Cut(b, 0, last - Len(a)))
          case (Some(c), Some(d)) => Some(Concat(c, d))
          case (_, _) => None
  }

  function Seek(it: Iter, p: nat): Option<Iter> {
    if p > 0 then Cut(it, p, Len(it)) else Some(it)
  }

  function Append(it: Iter, l: Iter): (r: Iter)
    ensures Contents(r) == Contents(it) + Contents(l)
  {
    Concat(it, l)
  }

  // ----- The operations agree with sequences -----

  lemma {:induction false} NextIsHead(it: Iter)
    ensures var (c, rest) := Next(it);
            if Contents(it) == [] then c == None && Contents(rest) == []
            else c == Some(Contents(it)[0]) && Contents(rest) == Contents(it)[1..]
  {
    match it {
      case Blank(n) =>
      case Bytes(None) =>
      case Bytes(Some(b)) =>
      case Sparse(m, inner, pos) =>
        NextIsHead(inner);
        if Contents(inner) != [] {
          assert Contents(Next(it).1) == Contents(it)[1..];
        }
      case Concat(a, b) =>
        NextIsHead(a);
        NextIsHead(b);
        if Contents(a) != [] {
          assert (Contents(a) + Contents(b))[1..] == Contents(a)[1..] + Contents(b);
        } else {
          assert Contents(it) == Contents(b);
        }
    }
  }

  /** Whether cutting behind the end is an error: below all overlays lies a plain stretch of cells. */
  predicate Strict(it: Iter) {
    match it
    case Blank(_) => true
    case Bytes(d) => d.Some?
    case Sparse(_, inner, _) => Strict(inner)
    case Concat(_, _) => false
  }

  /** `s[start..end]`, clamped to `s`. */
  function Clamped<T>(s: seq<T>, start: nat, end: nat): seq<T> {
    var last := if end > |s| then |s| else end;
    if start >= last then [] else s[start..last]
  }

  /** Length and elements of a clamped slice. */
  lemma ClampedAt<T>(s: seq<T>, start: nat, end: nat, n: nat)
    requires n == (if end > |s| then |s| else end)
    ensures |Clamped(s, start, end)| == if start >= n then 0 else n - start
    ensures forall i :: 0 <= i < |Clamped(s, start, end)| ==>
              start + i < |s| && Clamped(s, start, end)[i] == s[start + i]
  {
  }

  lemma ClampedBefore<T>(s: seq<T>, t: seq<T>, start: nat, end: nat)
    requires start < |s| && (end <= |s| || t == [])
    ensures Clamped(s + t, start, end) == Clamped(s, start, end)
  {
    hide Clamped;
    var l, r := Clamped(s + t, start, end), Clamped(s, start, end);
    ClampedAt(s + t, start, end, if end > |s + t| then |s + t| else end);
    ClampedAt(s, start, end, if end > |s| then |s| else end);
    assert |l| == |r|;
    forall i | 0 <= i < |l| ensures l[i] == r[i] { assert r[i] == s[start + i]; }
  }

  lemma ClampedBehind<T>(s: seq<T>, t: seq<T>, start: nat, end: nat, last: nat)
    requires |s| <= start && last == (if end > |s| + |t| then |s| + |t| else end) && last > |s|
    ensures Clamped(s + t, start, end) == Clamped(t, start - |s|, last - |s|)
  {
    hide Clamped;
    var l, r := Clamped(s + t, start, end), Clamped(t, start - |s|, last - |s|);
    ClampedAt(s + t, start, end, last);
    ClampedAt(t, start - |s|, last - |s|, last - |s|);
    assert |l| == |r|;
    forall i | 0 <= i < |l| ensures l[i] == r[i] {
      assert l[i] == (s + t)[start + i];
      assert r[i] == t[start - |s| + i];
    }
  }

  lemma ClampedAcross<T>(s: seq<T>, t: seq<T>, start: nat, end: nat, last: nat)
    requires start <= |s| <= last && last == if end > |s| + |t| then |s| + |t| else end
    ensures Clamped(s + t, start, end) == Clamped(s, start, |s|) + Clamped(t, 0, last - |s|)
  {
    hide Clamped;
    var l, a, b := Clamped(s + t, start, end), Clamped(s, start, |s|), Clamped(t, 0, last - |s|);
    ClampedAt(s + t, start, end, last);
    ClampedAt(s, start, |s|, |s|);
    ClampedAt(t, 0, last - |s|, last - |s|);
    assert |l| == |a| + |b|;
    forall i | 0 <= i < |l| ensures l[i] == (a + b)[i] {
      assert l[i] == (s + t)[start + i];
      if i < |a| {
        assert a[i] == s[start + i];
      } else {
        assert b[i - |a|] == t[i - |a|];
      }
    }
  }

  lemma ClampedTwice<T>(s: seq<T>, a: nat, b: nat, c: nat, d: nat)
    ensures Clamped(Clamped(s, a, b), c, d) == Clamped(s, a + c, if a + d < b then a + d else b)
  {
    hide Clamped;
    var t, e := Clamped(s, a, b), if a + d < b then a + d else b;
    var l, r := Clamped(t, c, d), Clamped(s, a + c, e);
    ClampedAt(s, a, b, if b > |s| then |s| else b);
    ClampedAt(t, c, d, if d > |t| then |t| else d);
    ClampedAt(s, a + c, e, if e > |s| then |s| else e);
    assert |l| == |r|;
    forall i | 0 <= i < |l| ensures l[i] == r[i] {
      assert l[i] == t[c + i];
      assert t[c + i] == s[a + (c + i)];
      assert r[i] == s[a + c + i];
    }
  }

  /** `cut` is the clamped slice. It fails exactly on non-empty ranges that start behind the end of a
    strict iterator. */
  lemma {:induction false} CutIsSlice(it: Iter, start: nat, end: nat)
    ensures Cut(it, start, end) == None <==> start < end && start > Len(it) && Strict(it)
    ensures Cut(it, start, end).Some? ==> Contents(Cut(it, start, end).value) == Clamped(Contents(it), start, end)
    decreases it, 1
  {
    hide Contents, Cut, Clamped, Overlay;
    match it {
      case Blank(_) => CutLeaf(it, start, end);
      case Bytes(_) => CutLeaf(it, start, end);
      case Sparse(m, inner, pos) =>
        CutIsSlice(inner, start, end);
        CutSparse(m, inner, pos, start, end);
      case Concat(a, b) =>
        if start < end { CutConcat(a, b, start, end); } else { CutNothing(it, start, end); }
    }
  }

  lemma CutNothing(it: Iter, start: nat, end: nat)
    requires start >= end
    ensures Cut(it, start, end).Some? && Contents(Cut(it, start, end).value) == Clamped(Contents(it), start, end)
  {
  }

  lemma CutLeaf(it: Iter, start: nat, end: nat)
    requires it.Blank? || it.Bytes?
    ensures Cut(it, start, end) == None <==> start < end && start > Len(it) && Strict(it)
    ensures Cut(it, start, end).Some? ==> Contents(Cut(it, start, end).value) == Clamped(Contents(it), start, end)
  {
  }

  lemma OverlayClamped(m: map<nat, Cell>, pos: nat, s: seq<Cell>, start: nat, end: nat)
    ensures Clamped(Overlay(m, pos, s), start, end) == Overlay(m, pos + start, Clamped(s, start, end))
  {
  }

  lemma CutSparse(m: map<nat, Cell>, inner: Iter, pos: nat, start: nat, end: nat)
    requires Cut(inner, start, end).Some? ==>
               Contents(Cut(inner, start, end).value) == Clamped(Contents(inner), start, end)
    ensures var it := Sparse(m, inner, pos);
            && (Cut(it, start, end).None? <==> start < end && Cut(inner, start, end).None?)
            && (Cut(it, start, end).Some? ==> Contents(Cut(it, start, end).value) == Clamped(Contents(it), start, end))
  {
    hide Clamped, Overlay;
    var it := Sparse(m, inner, pos);
    if start >= end {
      CutNothing(it, start, end);
    } else {
      OverlayClamped(m, pos, Contents(inner), start, end);
    }
  }

  lemma {:induction false} CutConcat(a: Iter, b: Iter, start: nat, end: nat)
    requires start < end
    ensures var it := Concat(a, b);
            Cut(it, start, end).Some? && Contents(Cut(it, start, end).value) == Clamped(Contents(it), start, end)
    decreases Concat(a, b), 0
  {
    hide Clamped, Len, Contents;
    var it, n := Concat(a, b), Len(a);
    ConcatContents(a, b);
    var last := if end > Len(it) then Len(it) else end;
    if start < n && last <= n {
      CutIsSlice(a, start, end);
      ClampedBefore(Contents(a), Contents(b), start, end);
    } else if start >= n && last > n {
      CutIsSlice(b, start - n, last - n);
      ClampedBehind(Contents(a), Contents(b), start, end, last);
    } else {
      CutIsSlice(a, start, n);
      CutIsSlice(b, 0, last - n);
      CutAcross(a, b, start, end, last);
    }
  }

  lemma ConcatContents(a: Iter, b: Iter)
    ensures Contents(Concat(a, b)) == Contents(a) + Contents(b) && Len(Concat(a, b)) == Len(a) + Len(b)
  {
  }

  /** The cut is put together from both parts; behind the end both are empty. */
  lemma CutAcross(a: Iter, b: Iter, start: nat, end: nat, last: nat)
    requires start < end && last == (if end > Len(a) + Len(b) then Len(a) + Len(b) else end)
    requires !(start < Len(a) && last <= Len(a)) && !(start >= Len(a) && last > Len(a)) && last >= Len(a)
    requires Cut(a, start, Len(a)).Some? && Cut(b, 0, last - Len(a)).Some?
    requires Contents(Cut(a, start, Len(a)).value) == Clamped(Contents(a), start, Len(a))
    requires Contents(Cut(b, 0, last - Len(a)).value) == Clamped(Contents(b), 0, last - Len(a))
    ensures var it := Concat(a, b);
            Cut(it, start, end).Some? && Contents(Cut(it, start, end).value) == Clamped(Contents(it), start, end)
  {
    hide Clamped, Len, Contents;
    var s, t, n := Contents(a), Contents(b), Len(a);
    ConcatContents(a, b);
    ConcatContents(Cut(a, start, n).value, Cut(b, 0, last - n).value);
    if start <= n {
      ClampedAcross(s, t, start, end, last);
    } else {
      ClampedNothing(s, start, n);
      ClampedNothing(t, 0, last - n);
      ClampedNothing(s + t, start, end);
    }
  }

  lemma ClampedNothing<T>(s: seq<T>, start: nat, end: nat)
    requires start >= |s| || start >= end
    ensures Clamped(s, start, end) == []
  {
  }

  /** `seek` never fails and drops a prefix. */
  lemma SeekDrops(it: Iter, p: nat)
    ensures Seek(it, p).Some?
    ensures Contents(Seek(it, p).value) == if p <= Len(it) then Contents(it)[p..] else []
  {
    CutIsSlice(it, p, Len(it));
  }

  /** Cutting a cut is one cut. */
  lemma NestedCuts(it: Iter, a: nat, b: nat, c: nat, d: nat)
    requires Cut(it, a, b).Some? && Cut(Cut(it, a, b).value, c, d).Some?
    ensures Contents(Cut(Cut(it, a, b).value, c, d).value) ==
            Clamped(Contents(it), a + c, if a + d < b then a + d else b)
  {
    hide Contents, Cut, Clamped, Len;
    CutIsSlice(it, a, b);
    CutIsSlice(Cut(it, a, b).value, c, d);
    ClampedTwice(Contents(it), a, b, c, d);
  }

  // ----- Iterating -----

  /** An iterator in use: `next` changes it in place. */
  class Cursor {
    var it: Iter

    constructor (it: Iter)
      ensures this.it == it
    {
      this.it := it;
    }

    method Advance() returns (c: Option<Cell>)
      modifies this
      ensures old(Contents(it)) == [] ==> c == None && Contents(it) == []
      ensures old(Contents(it)) != [] ==> c == Some(old(Contents(it))[0]) && Contents(it) == old(Contents(it))[1..]
    {
      NextIsHead(it);
      var (cell, rest) := Next(it);
      it := rest;
      return cell;
    }

    /** `collect`: repeated `next` yields the contents. */
    method Collect() returns (cells: seq<Cell>)
      modifies this
      ensures cells == old(Contents(it)) && Contents(it) == []
    {
      cells := [];
      var c := Advance();
      while c.Some?
        invariant c.Some? ==> cells + [c.value] + Contents(it) == old(Contents(it))
        invariant c.None? ==> cells == old(Contents(it)) && Contents(it) == []
        decreases c.Some?, |Contents(it)|
      {
        cells := cells + [c.value];
        c := Advance();
      }
    }
  }

  // ----- Writable layers -----

  function OpaqueIter(o: OpaqueLayer): (r: Iter)
    ensures Contents(r) == OpaqueCells(o)
  {
    match o
    case UndefinedLayer(n) => Blank(n)
    case DefinedLayer(b) => Bytes(Some(b))
  }

  function OpaqueCells(o: OpaqueLayer): (r: seq<Cell>) {
    match o
    case UndefinedLayer(n) => seq(n, i => None)
    case DefinedLayer(b) => Defined(b)
  }

  function Filter(l: Layer, it: Iter): Iter {
    match l
    case Opaque(o) => OpaqueIter(o)
    case Writable(m) => Sparse(m, it, 0)
  }

  /** One call of `Layer::write` on the `layer`-th layer of a stack, lowest first. */
  datatype Write = Write(layer: nat, pos: nat, cell: Cell)

  /** `Layer::write`: the new layer, and whether it was writable. */
  function Wrote(l: Layer, p: nat, c: Cell): (Layer, bool) {
    match l
    case Opaque(_) => (l, false)
    case Writable(m) => (Writable(m[p := c]), true)
  }

  /** The cells differ at most at `p`, where `after` has `c`. */
  ghost predicate Overwritten(before: seq<Cell>, after: seq<Cell>, p: nat, c: Cell) {
    |after| == |before| && forall q :: 0 <= q < |before| ==> after[q] == if q == p then c else before[q]
  }

  /** Reading through a writable layer shows the write at its position and everything else as before; an opaque
    layer is not written. */
  lemma ReadAfterWrite(l: Layer, p: nat, c: Cell, it: Iter)
    ensures var (l', ok) := Wrote(l, p, c);
            if ok then Overwritten(Contents(Filter(l, it)), Contents(Filter(l', it)), p, c)
            else Contents(Filter(l', it)) == Contents(Filter(l, it)) == OpaqueCells(l.base)
  {
    hide Contents;
    FilterShows(l, it);
    FilterShows(Wrote(l, p, c).0, it);
  }

  lemma FilterShows(l: Layer, it: Iter)
    ensures Contents(Filter(l, it)) == if l.Opaque? then OpaqueCells(l.base) else Overlay(l.cells, 0, Contents(it))
  {
  }

  /** A layer that is written in place. */
  class LayerBox {
    var layer: Layer

    /** What is read through the layer afterwards, whatever lies below it. */
    method Write(p: nat, c: Cell) returns (ok: bool)
      modifies this
      ensures ok <==> old(layer).Writable?
      ensures ok ==> forall it :: Overwritten(Contents(Filter(old(layer), it)), Contents(Filter(layer, it)), p, c)
      ensures !ok ==> layer == old(layer)
    {
      ghost var before := layer;
      match layer {
        case Opaque(_) =>
          ok := false;
        case Writable(m) =>
          layer := Writable(m[p := c]);
          ok := true;
          forall it ensures Overwritten(Contents(Filter(before, it)), Contents(Filter(layer, it)), p, c) {
            ReadAfterWrite(before, p, c, it);
          }
      }
    }
  }

  function WriteOne(ls: seq<Layer>, w: Write): (r: seq<Layer>)
    ensures |r| == |ls|
  {
    if w.layer < |ls| then ls[w.layer := Wrote(ls[w.layer], w.pos, w.cell).0] else ls
  }

  function WriteAll(ls: seq<Layer>, ws: seq<Write>): (r: seq<Layer>)
    ensures |r| == |ls|
  {
    if ws == [] then ls else WriteOne(WriteAll(ls, ws[..|ws| - 1]), ws[|ws| - 1])
  }

  /** The last write to that cell of that layer. */
  function LastWrite(ws: seq<Write>, layer: nat, p: nat): Option<Cell> {
    if ws == [] then None
    else
      var w := ws[|ws| - 1];
      if w.layer == layer && w.pos == p then Some(w.cell) else LastWrite(ws[..|ws| - 1], layer, p)
  }

  /** The topmost of the lowest `n` layers written at `p` decides, else the base. */
  function Visible(ws: seq<Write>, n: nat, p: nat, base: Cell): Cell {
    if n == 0 then base
    else if LastWrite(ws, n - 1, p).Some? then LastWrite(ws, n - 1, p).value
    else Visible(ws, n - 1, p, base)
  }

  function Fresh(n: nat): seq<Layer> {
    seq(n, i => Writable(map[]))
  }

  /** The iterator through a whole stack of layers. */
  function FilterAll(ls: seq<Layer>, base: Iter): Iter {
    if ls == [] then base else Filter(ls[|ls| - 1], FilterAll(ls[..|ls| - 1], base))
  }

  /** The map of a layer holds exactly the last writes to it. */
  ghost predicate Records(ws: seq<Write>, l: Layer, k: nat) {
    l.Writable? && forall p :: LastWrite(ws, k, p) == if p in l.cells then Some(l.cells[p]) else None
  }

  lemma {:induction false} WritesRecorded(n: nat, ws: seq<Write>, k: nat)
    requires k < n
    ensures Records(ws, WriteAll(Fresh(n), ws)[k], k)
  {
    if ws != [] {
      WritesRecorded(n, ws[..|ws| - 1], k);
    }
  }

  lemma {:induction false} StackCells(ws: seq<Write>, ls: seq<Layer>, n: nat, base: Iter)
    requires n <= |ls| && forall k :: 0 <= k < n ==> Records(ws, ls[k], k)
    ensures Len(FilterAll(ls[..n], base)) == Len(base)
    ensures forall i :: 0 <= i < Len(base) ==>
              Contents(FilterAll(ls[..n], base))[i] == Visible(ws, n, i, Contents(base)[i])
  {
    if n > 0 {
      StackCells(ws, ls, n - 1, base);
      assert ls[..n][..n - 1] == ls[..n - 1];
    } else {
      assert ls[..0] == [];
    }
  }

  // ----- Any use of the iterator -----

  datatype Use = DoCut(start: nat, end: nat) | DoSeek(p: nat) | DoNext

  function Apply(it: Iter, u: Use): Option<Iter> {
    match u
    case DoCut(start, end) => Cut(it, start, end)
    case DoSeek(p) => Seek(it, p)
    case DoNext => Some(Next(it).1)
  }

  function ApplyAll(it: Iter, us: seq<Use>): Option<Iter> {
    if us == [] then Some(it)
    else
      match ApplyAll(it, us[..|us| - 1])
      case None => None
      case Some(r) => Apply(r, us[|us| - 1])
  }

  /** A stretch of the original cells: from `from`, `size` many. */
  datatype Stretch = Stretch(from: nat, size: nat)

  function Narrow(w: Stretch, u: Use): Stretch {
    match u
    case DoCut(start, end) =>
      var last := if end > w.size then w.size else end;
      if start >= last then Stretch(w.from, 0) else Stretch(w.from + start, last - start)
    case DoSeek(p) => if p <= w.size then Stretch(w.from + p, w.size - p) else Stretch(w.from, 0)
    case DoNext => if w.size == 0 then w else Stretch(w.from + 1, w.size - 1)
  }

  function NarrowAll(w: Stretch, us: seq<Use>): Stretch {
    if us == [] then w else Narrow(NarrowAll(w, us[..|us| - 1]), us[|us| - 1])
  }

  lemma UseNarrows(it: Iter, u: Use, cells: seq<Cell>, w: Stretch)
    requires w.from + w.size <= |cells| && Contents(it) == cells[w.from..w.from + w.size] && Apply(it, u).Some?
    ensures var w' := Narrow(w, u);
            w'.from + w'.size <= |cells| && Contents(Apply(it, u).value) == cells[w'.from..w'.from + w'.size]
  {
    hide Contents, Cut, Next, Seek, Len, Clamped;
    var w' := Narrow(w, u);
    match u {
      case DoCut(start, end) =>
        CutIsSlice(it, start, end);
        ClampedSlice(cells, w.from, w.size, start, end);
      case DoSeek(p) =>
        SeekDrops(it, p);
        if p <= w.size { SliceOfSlice(cells, w.from, w.size, p, w'.size); }
      case DoNext => NextNarrows(it, cells, w, w');
    }
  }

  lemma NextNarrows(it: Iter, cells: seq<Cell>, w: Stretch, w': Stretch)
    requires w.from + w.size <= |cells| && Contents(it) == cells[w.from..w.from + w.size] && w' == Narrow(w, DoNext)
    ensures Contents(Next(it).1) == cells[w'.from..w'.from + w'.size]
  {
    hide Contents, Next;
    NextIsHead(it);
    if w.size > 0 { SliceOfSlice(cells, w.from, w.size, 1, w.size - 1); }
  }

  lemma ClampedSlice<T>(s: seq<T>, from: nat, size: nat, start: nat, end: nat)
    requires from + size <= |s|
    ensures var last := if end > size then size else end;
            Clamped(s[from..from + size], start, end) == if start >= last then [] else s[from + start..from + last]
  {
    var last := if end > size then size else end;
    if start < last { SliceOfSlice(s, from, size, start, last - start); }
  }

  lemma SliceOfSlice<T>(s: seq<T>, from: nat, size: nat, from': nat, size': nat)
    requires from + size <= |s| && from' + size' <= size
    ensures s[from..from + size][from'..from' + size'] == s[from + from'..from + from' + size']
  {
    var l, r := s[from..from + size][from'..from' + size'], s[from + from'..from + from' + size'];
    assert |l| == |r|;
    forall i | 0 <= i < |l| ensures l[i] == r[i] {
      assert s[from..from + size][from' + i] == s[from + from' + i];
    }
  }

  /** After any cuts, seeks and partial iteration, a stretch of the original cells is left. */
  lemma {:induction false} AnyUse(it: Iter, us: seq<Use>)
    requires ApplyAll(it, us).Some?
    ensures var w := NarrowAll(Stretch(0, Len(it)), us);
            w.from + w.size <= Len(it) && Contents(ApplyAll(it, us).value) == Contents(it)[w.from..w.from + w.size]
  {
    hide Contents, Apply, Narrow, Len;
    if us != [] {
      var before := us[..|us| - 1];
      AnyUse(it, before);
      UseNarrows(ApplyAll(it, before).value, us[|us| - 1], Contents(it), NarrowAll(Stretch(0, Len(it)), before));
    } else {
      assert Contents(it)[0..Len(it)] == Contents(it);
    }
  }

  /** Whatever was written to a stack of writable layers, and however the iterator was cut, moved and
    advanced since: each cell still to come is the last write of the topmost layer that covers its
    absolute position, and the base cell if there is none. */
  lemma OverlaysShowLastWrites(n: nat, ws: seq<Write>, base: Iter, us: seq<Use>, j: nat)
    requires ApplyAll(FilterAll(WriteAll(Fresh(n), ws), base), us).Some?
    requires j < NarrowAll(Stretch(0, Len(base)), us).size
    ensures var it := ApplyAll(FilterAll(WriteAll(Fresh(n), ws), base), us).value;
            var w := NarrowAll(Stretch(0, Len(base)), us);
            && Len(it) == w.size && w.from + w.size <= Len(base)
            && Contents(it)[j] == Visible(ws, n, w.from + j, Contents(base)[w.from + j])
  {
    hide Contents, ApplyAll, NarrowAll, FilterAll, Visible, LastWrite, WriteAll;
    var ls := WriteAll(Fresh(n), ws);
    forall k | 0 <= k < n ensures Records(ws, ls[k], k) { WritesRecorded(n, ws, k); }
    StackCells(ws, ls, n, base);
    assert ls[..n] == ls;
    AnyUse(FilterAll(ls, base), us);
  }
}
