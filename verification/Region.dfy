/** Regions: stacks of layers in one address space (core/src/region.rs:60-163), and the bytes the AMD64
  decoder gets to see (amd64/src/architecture.rs:57-67). */
module Region {
  import opened Il
  import opened Layers

  /** A layer and the area it is applied to. */
  datatype Cover = Cover(start: nat, end: nat, layer: Layer)

  // ----- What a region should contain -----

  /** The cell at `p` after the first `n` covers: the topmost layer that has one decides. */
  function CellAt(stack: seq<Cover>, n: nat, p: nat, root: seq<Cell>): Cell
    requires n <= |stack| && p < |root|
    requires forall k :: 0 <= k < n ==> Fits(stack[k], |root|)
  {
    if n == 0 then root[p]
    else
      var c := stack[n - 1];
      assert Fits(c, |root|);
      if c.start <= p < c.end && c.layer.Opaque? then OpaqueCells(c.layer.base)[p - c.start]
      else if c.start <= p < c.end && p - c.start in c.layer.cells then c.layer.cells[p - c.start]
      else CellAt(stack, n - 1, p, root)
  }

  /** The area lies in the region, and an opaque layer fills it exactly. */
  predicate Fits(c: Cover, size: nat) {
    c.start <= c.end <= size && (c.layer.Opaque? ==> |OpaqueCells(c.layer.base)| == c.end - c.start)
  }

  // ----- The code -----

  function OpaqueLen(o: OpaqueLayer): (r: nat)
    ensures r == |OpaqueCells(o)|
  {
    match o
    case UndefinedLayer(n) => n
    case DefinedLayer(b) => |b|
  }

  /** One round of the loop in `Region::iter`; None stands for a failed assertion or a panic in `cut`. */
  function Applied(ret: Iter, c: Cover): Option<Iter> {
    match Cut(ret, c.start, c.end)
    case None => None
    case Some(src) =>
      if c.end < c.start || Len(src) != c.end - c.start then None
      else
        var tmp := Filter(c.layer, src);
        match (if c.start != 0 then Front(ret, c, tmp) else Some(tmp))
        case None => None
        case Some(tmp) =>
          match (if c.end < Len(ret) then Back(ret, c, tmp) else Some(tmp))
          case None => None
          case Some(tmp) => if Len(ret) == Len(tmp) then Some(tmp) else None
  }

  function Front(ret: Iter, c: Cover, tmp: Iter): Option<Iter> {
    match Cut(ret, 0, c.start)
    case None => None
    case Some(front) => if Len(Append(front, tmp)) == c.end then Some(Append(front, tmp)) else None
  }

  function Back(ret: Iter, c: Cover, tmp: Iter): Option<Iter> {
    match Cut(ret, c.end, Len(ret))
    case None => None
    case Some(back) => Some(Append(tmp, back))
  }

  /** A layer that fits replaces its area and leaves the rest. */
  function Patched(cells: seq<Cell>, c: Cover): seq<Cell>
    requires Fits(c, |cells|)
  {
    var area := cells[c.start..c.end];
    var shown := if c.layer.Opaque? then OpaqueCells(c.layer.base) else Overlay(c.layer.cells, 0, area);
    cells[..c.start] + shown + cells[c.end..]
  }

  lemma CutWithin(it: Iter, a: nat, b: nat)
    requires a <= b <= Len(it)
    ensures Cut(it, a, b).Some? && Contents(Cut(it, a, b).value) == Contents(it)[a..b]
  {
    hide Contents, Cut, Len;
    CutIsSlice(it, a, b);
  }

  lemma FrontIs(ret: Iter, c: Cover, tmp: Iter)
    requires c.start <= c.end <= Len(ret)
    ensures Front(ret, c, tmp).Some? <==> Len(tmp) == c.end - c.start
    ensures Front(ret, c, tmp).Some? ==> Contents(Front(ret, c, tmp).value) == Contents(ret)[..c.start] + Contents(tmp)
  {
    hide Contents, Cut, Len;
    CutWithin(ret, 0, c.start);
    assert Contents(ret)[0..c.start] == Contents(ret)[..c.start];
  }

  lemma BackIs(ret: Iter, c: Cover, tmp: Iter)
    requires c.end <= Len(ret)
    ensures Back(ret, c, tmp).Some? && Contents(Back(ret, c, tmp).value) == Contents(tmp) + Contents(ret)[c.end..]
  {
    hide Contents, Cut, Len;
    CutWithin(ret, c.end, Len(ret));
    assert Contents(ret)[c.end..Len(ret)] == Contents(ret)[c.end..];
  }

  /** One round succeeds exactly if the layer fits. */
  lemma AppliedIsPatched(ret: Iter, c: Cover)
    requires c.end <= Len(ret)
    ensures Applied(ret, c).Some? <==> Fits(c, Len(ret))
    ensures Applied(ret, c).Some? ==> Contents(Applied(ret, c).value) == Patched(Contents(ret), c)
  {
    hide Contents, Cut, OpaqueCells, Overlay, Front, Back, Filter, Len;
    var s := Contents(ret);
    if c.start <= c.end {
      CutWithin(ret, c.start, c.end);
      var tmp := Filter(c.layer, Cut(ret, c.start, c.end).value);
      FilterShows(c.layer, Cut(ret, c.start, c.end).value);
      FrontIs(ret, c, tmp);
      if c.start == 0 || Front(ret, c, tmp).Some? {
        var tmp' := if c.start != 0 then Front(ret, c, tmp).value else tmp;
        assert Contents(tmp') == s[..c.start] + Contents(tmp);
        BackIs(ret, c, tmp');
        if c.end == Len(ret) { assert s[c.end..] == []; }
      }
    }
  }

  lemma PatchedAt(cells: seq<Cell>, c: Cover, p: nat)
    requires Fits(c, |cells|) && p < |cells|
    ensures |Patched(cells, c)| == |cells|
    ensures Patched(cells, c)[p] ==
            if c.start <= p < c.end && c.layer.Opaque? then OpaqueCells(c.layer.base)[p - c.start]
            else if c.start <= p < c.end && p - c.start in c.layer.cells then c.layer.cells[p - c.start]
            else cells[p]
  {
    hide OpaqueCells;
  }

  // ----- Regions -----

  class Region {
    /** The lowest layer comes first and fills the region. */
    var stack: seq<Cover>

    ghost predicate Valid()
      reads this
    {
      && |stack| > 0 && stack[0].layer.Opaque?
      && stack[0].start == 0 && stack[0].end == OpaqueLen(stack[0].layer.base)
      && forall k :: 0 < k < |stack| ==> stack[k].end <= stack[0].end
    }

    ghost function Root(): (r: seq<Cell>)
      requires Valid()
      reads this
      ensures |r| == stack[0].end
    {
      OpaqueCells(stack[0].layer.base)
    }

    /** Every layer fits its area. */
    ghost predicate Filled()
      requires Valid()
      reads this
    {
      forall k :: 0 <= k < |stack[1..]| ==> Fits(stack[1..][k], stack[0].end)
    }

    constructor (root: OpaqueLayer)
      ensures Valid() && Filled() && Root() == OpaqueCells(root) && |stack| == 1 && stack[0].end == OpaqueLen(root)
    {
      stack := [Cover(0, OpaqueLen(root), Opaque(root))];
    }

    /** `cover`; None stands for a panic on a reversed area. A layer longer than its area is accepted. */
    method Apply(start: nat, end: nat, layer: Layer) returns (ok: Option<bool>)
      requires Valid()
      modifies this
      ensures Valid()
      ensures ok == Some(true) <==>
              end <= old(stack)[0].end && (layer.Opaque? ==> start <= end && end - start <= OpaqueLen(layer.base))
      ensures ok == Some(false) <==>
              end > old(stack)[0].end || (layer.Opaque? && start <= end && end - start > OpaqueLen(layer.base))
      ensures stack == if ok == Some(true) then old(stack) + [Cover(start, end, layer)] else old(stack)
    {
      if end <= stack[0].end {
        if layer.Opaque? {
          if end < start { return None; }
          if end - start > OpaqueLen(layer.base) { return Some(false); }
        }
        stack := stack + [Cover(start, end, layer)];
        return Some(true);
      }
      return Some(false);
    }

    /** `iter`: succeeds exactly if every layer fits its area, and then shows the topmost layers' cells. */
    method Cells() returns (r: Option<Iter>)
      requires Valid()
      ensures r.Some? <==> Filled()
      ensures r.Some? ==> Len(r.value) == |Root()|
      ensures r.Some? ==>
                forall p :: 0 <= p < |Root()| ==> Contents(r.value)[p] == CellAt(stack[1..], |stack| - 1, p, Root())
    {
      hide Contents, Applied, OpaqueCells, Patched;
      var ret := OpaqueIter(stack[0].layer.base);
      var covers := stack[1..];
      var i := 0;
      while i < |covers|
        invariant 0 <= i <= |covers| && Len(ret) == |Root()|
        invariant forall k :: 0 <= k < i ==> Fits(covers[k], |Root()|)
        invariant forall p :: 0 <= p < |Root()| ==> Contents(ret)[p] == CellAt(covers, i, p, Root())
      {
        assert covers[i] == stack[i + 1];
        AppliedIsPatched(ret, covers[i]);
        var next := Applied(ret, covers[i]);
        if next.None? { return None; }
        forall p | 0 <= p < |Root()|
          ensures |Contents(next.value)| == |Root()| && Contents(next.value)[p] == CellAt(covers, i + 1, p, Root())
        {
          PatchedAt(Contents(ret), covers[i], p);
        }
        PatchedLength(Contents(ret), covers[i]);
        ret := next.value;
        i := i + 1;
      }
      return Some(ret);
    }
  }

  lemma PatchedLength(cells: seq<Cell>, c: Cover)
    requires Fits(c, |cells|)
    ensures |Patched(cells, c)| == |cells|
  {
    hide OpaqueCells;
  }

  // ----- Accepted layers that break the region -----

  /** One layer over a root: `iter` fails on it although `cover` accepted it, iff it does not fit. */
  method CoverOnce(root: OpaqueLayer, start: nat, end: nat, layer: Layer) returns (ok: Option<bool>, r: Option<Iter>)
    ensures ok == Some(true) ==> (r.Some? <==> Fits(Cover(start, end, layer), OpaqueLen(root)))
    ensures ok == Some(true) <==>
            end <= OpaqueLen(root) && (layer.Opaque? ==> start <= end && end - start <= OpaqueLen(layer.base))
  {
    hide OpaqueCells;
    var region := new Region(root);
    ok := region.Apply(start, end, layer);
    r := region.Cells();
    if ok == Some(true) {
      assert region.stack[1..] == [Cover(start, end, layer)];
      assert region.stack[1..][0] == Cover(start, end, layer);
    }
  }

  /** Three cells for an area of two. */
  method LongLayerBreaks() returns (ok: Option<bool>, r: Option<Iter>)
    ensures ok == Some(true) && r == None
  {
    ok, r := CoverOnce(UndefinedLayer(4), 0, 2, Opaque(UndefinedLayer(3)));
  }

  /** A writable layer over the area from 2 to 1. */
  method ReversedAreaBreaks() returns (ok: Option<bool>, r: Option<Iter>)
    ensures ok == Some(true) && r == None
  {
    ok, r := CoverOnce(UndefinedLayer(4), 2, 1, Writable(map[]));
  }

  // ----- The decoder's window -----

  /** The cells from `start` on are these bytes. */
  ghost predicate Shows(cells: seq<Cell>, start: nat, buf: seq<byte>) {
    forall j :: 0 <= j < |buf| ==> start + j < |cells| && cells[start + j] == Some(buf[j])
  }

  lemma ShowsMore(cells: seq<Cell>, start: nat, buf: seq<byte>, b: byte)
    requires Shows(cells, start, buf) && start + |buf| < |cells| && cells[start + |buf|] == Some(b)
    ensures Shows(cells, start, buf + [b])
  {
  }

  /** The longest run of defined cells from `start` on, at most 15 of them. */
  ghost predicate IsWindow(cells: seq<Cell>, start: nat, buf: seq<byte>) {
    && |buf| <= 15 && Shows(cells, start, buf)
    && (|buf| == 15 || start + |buf| >= |cells| || cells[start + |buf|] == None)
  }

  lemma ShowsNothing(cells: seq<Cell>, start: nat)
    ensures Shows(cells, start, [])
  {
  }

  lemma WindowUnique(cells: seq<Cell>, start: nat, a: seq<byte>, b: seq<byte>)
    requires IsWindow(cells, start, a) && IsWindow(cells, start, b)
    ensures a == b
  {
    if |a| < |b| { WindowCell(cells, start, b, |a|); } else if |b| < |a| { WindowCell(cells, start, a, |b|); }
    forall j | 0 <= j < |a| ensures a[j] == b[j] {
      WindowCell(cells, start, a, j);
      WindowCell(cells, start, b, j);
    }
  }

  lemma WindowCell(cells: seq<Cell>, start: nat, buf: seq<byte>, j: nat)
    requires IsWindow(cells, start, buf) && j < |buf|
    ensures start + j < |cells| && cells[start + j] == Some(buf[j])
  {
  }

  /** What `Amd64::decode` hands to the decoder. */
  method Fetch(data: Iter, start: nat) returns (buf: seq<byte>)
    ensures IsWindow(Contents(data), start, buf)
  {
    hide Cut, Shows, Len;
    SeekDrops(data, start);
    var i := new Cursor(Seek(data, start).value);
    ghost var cells := Contents(data);
    buf := [];
    assert Shows(cells, start, buf) by { ShowsNothing(cells, start); }
    var c := i.Advance();
    while c.Some? && c.value.Some?
      invariant |buf| < 15
      invariant Shows(cells, start, buf)
      invariant c.Some? ==> start + |buf| < |cells| && c.value == cells[start + |buf|]
      invariant c.Some? ==> Contents(i.it) == cells[start + |buf| + 1..]
      invariant c.None? ==> start + |buf| >= |cells|
      decreases 15 - |buf|
    {
      ShowsMore(cells, start, buf, c.value.value);
      buf := buf + [c.value.value];
      if |buf| == 15 { break; }
      c := i.Advance();
    }
  }
}
