/**
 The kernel's address map (include/mm/slab.h) and the ranges kmalloc hands out: objects of the seven
 slab classes, whole pages in the direct map, and heap blocks. kfree finds the allocator of a range
 from its address alone.
 */
module AddressMap {
  const V0 := 0xffff_8000_0000_0000
  const AREA := 0x80_0000_0000
  const SLAB_START := V0 + 2 * AREA
  const HEAP_START := SLAB_START + 7 * AREA
  const HEAP_END := HEAP_START + AREA
  const CLASSES := 7

  datatype Range =
    | Cell(i: nat, j: nat, k: nat)
    | Page(frame: nat)
    | Block(start: nat, size: nat)

  function Size(i: nat): (n: nat)
    requires i < CLASSES
  {
    [32, 64, 128, 256, 512, 1024, 2048][i]
  }

  /** Objects per slab; in the small classes the first is the slab's header. */
  function Bits(i: nat): (n: nat)
    requires i < CLASSES
  {
    [128, 64, 32, 16, 8, 256, 256][i]
  }

  /** Bytes per slab. */
  function Span(i: nat): (n: nat)
    requires i < CLASSES
  {
    [4096, 4096, 4096, 4096, 4096, 0x4_0000, 0x8_0000][i]
  }

  /** Slabs a class can address: a small class fills its area, a middle one a 32-bit offset. */
  function Limit(i: nat): (n: nat)
    requires i < CLASSES
  {
    [0x800_0000, 0x800_0000, 0x800_0000, 0x800_0000, 0x800_0000, 0x4000, 0x2000][i]
  }

  predicate Small(i: nat) { i < 5 }

  function Area(i: nat): (a: nat) { SLAB_START + i * AREA }

  /** Class i's objects tile its slabs, and its slabs fit its area. */
  lemma ClassShape(i: nat)
    requires i < CLASSES
    ensures Size(i) > 0 && Times(Size(i), Bits(i)) == Span(i) && Times(Span(i), Limit(i)) <= AREA
    ensures Area(i) + AREA <= HEAP_START && Area(i) >= SLAB_START
  {
  }

  ghost predicate Proper(r: Range) {
    match r
    case Cell(i, j, k) => i < CLASSES && j < Limit(i) && k < Bits(i) && (Small(i) ==> k > 0)
    case Page(f) => 0 < f && 4096 * f < 2 * AREA
    case Block(s, n) => HEAP_START <= s && s + n <= HEAP_END && n > 0
  }

  function Times(a: nat, b: nat): (p: nat) { a * b }

  function Offset(i: nat, j: nat, k: nat): (o: nat)
    requires i < CLASSES
  {
    Times(Span(i), j) + Times(Size(i), k)
  }

  function Addr(r: Range): (a: nat)
    requires r.Cell? ==> r.i < CLASSES
  {
    match r
    case Cell(i, j, k) => Area(i) + Offset(i, j, k)
    case Page(f) => V0 + 4096 * f
    case Block(s, n) => s
  }

  function Len(r: Range): (n: nat)
    requires r.Cell? ==> r.i < CLASSES
  {
    match r
    case Cell(i, _, _) => Size(i)
    case Page(_) => 4096
    case Block(_, n) => n
  }

  predicate Apart(r: Range, q: Range)
    requires (r.Cell? ==> r.i < CLASSES) && (q.Cell? ==> q.i < CLASSES)
  {
    Addr(r) + Len(r) <= Addr(q) || Addr(q) + Len(q) <= Addr(r)
  }

  lemma {:induction false} MulLess(d: nat, a: nat, b: nat)
    requires a < b
    ensures Times(d, a) + d <= Times(d, b)
  {
    if a + 1 < b {
      MulLess(d, a, b - 1);
    }
    assert d * b == d * (b - 1) + d;
  }

  lemma Quotient(n: nat, d: nat, q: nat, r: nat)
    requires n == Times(d, q) + r && r < d
    ensures n / d == q && n % d == r
  {
    if n / d < q { MulLess(d, n / d, q); }
    if n / d > q { MulLess(d, q, n / d); }
  }

  /** An object lies in its slab, and its slab in the class's area. */
  lemma CellInside(i: nat, j: nat, k: nat)
    requires Proper(Cell(i, j, k))
    ensures Times(Size(i), k) + Size(i) <= Span(i) && Offset(i, j, k) + Size(i) <= AREA
    ensures Area(i) <= Addr(Cell(i, j, k)) && Addr(Cell(i, j, k)) + Size(i) <= Area(i) + AREA
  {
    hide Size, Span, Bits, Limit, Area, Times;
    ClassShape(i);
    MulLess(Size(i), k, Bits(i));
    MulLess(Span(i), j, Limit(i));
  }

  /** Different objects share no byte. */
  lemma CellsApart(i: nat, j: nat, k: nat, j': nat, k': nat)
    requires Proper(Cell(i, j, k)) && Proper(Cell(i, j', k')) && (j, k) != (j', k')
    ensures Apart(Cell(i, j, k), Cell(i, j', k'))
  {
    hide Size, Span, Bits, Limit, Area, Times;
    CellInside(i, j, k);
    CellInside(i, j', k');
    if j < j' { MulLess(Span(i), j, j'); }
    if j' < j { MulLess(Span(i), j', j); }
    if k < k' { MulLess(Size(i), k, k'); }
    if k' < k { MulLess(Size(i), k', k); }
  }

  /** No object touches the 18 header bytes at the start of any slab of a small class. */
  lemma HeadersAvoided(i: nat, j: nat, k: nat, j': nat)
    requires Proper(Cell(i, j, k)) && Small(i)
    ensures var header := Area(i) + Times(Span(i), j');
            Addr(Cell(i, j, k)) >= header + 18 || Addr(Cell(i, j, k)) + Size(i) <= header
  {
    hide Span, Bits, Limit, Area, Times;
    CellInside(i, j, k);
    if j < j' { MulLess(Span(i), j, j'); }
    if j' < j { MulLess(Span(i), j', j); SmallSpan(i); }
    MulLess(Size(i), 0, k);
  }

  lemma SmallSpan(i: nat)
    requires i < CLASSES
    ensures Span(i) >= 4096
  {
  }

  /** Ranges of different kinds, or of different classes, share no byte. */
  lemma KindsApart(r: Range, q: Range)
    requires Proper(r) && Proper(q)
    requires match r
             case Cell(i, _, _) => !q.Cell? || q.i != i
             case Page(f) => !(q.Page? && q.frame == f)
             case Block(_, _) => !q.Block?
    ensures Apart(r, q)
  {
    hide Size, Span, Bits, Limit, Offset;
    if r.Cell? { CellInside(r.i, r.j, r.k); ClassShape(r.i); }
    if q.Cell? { CellInside(q.i, q.j, q.k); ClassShape(q.i); }
    if r.Cell? && q.Cell? {
      if r.i < q.i { MulLess(AREA, r.i, q.i); } else { MulLess(AREA, q.i, r.i); }
    }
  }

  datatype Route = Fault | ToPage(frame: nat) | ToCell(i: nat, j: nat, k: nat) | ToHeap(addr: nat)

  /** What the dispatch of kfree and slab_free makes of an address. */
  ghost predicate Routed(addr: nat, r: Route) {
    && (addr < V0 ==> r == Fault)
    && (V0 <= addr < SLAB_START ==> r == ToPage((addr - V0) / 4096))
    && (SLAB_START <= addr < HEAP_START ==>
          && r.ToCell? && r.i < CLASSES && Area(r.i) <= addr < Area(r.i) + AREA && Span(r.i) > 0 && Size(r.i) > 0
          && r.j == (addr - Area(r.i)) / Span(r.i) && r.k == (addr - Area(r.i)) % Span(r.i) / Size(r.i))
    && (HEAP_START <= addr ==> r == ToHeap(addr))
  }

  method Dispatch(addr: nat) returns (r: Route)
    ensures Routed(addr, r)
  {
    if addr < V0 { return Fault; }
    if addr < SLAB_START { return ToPage((addr - V0) / 4096); }
    for i := 0 to CLASSES
      invariant addr >= Area(i)
    {
      if addr < Area(i) + AREA {
        ClassShape(i);
        return ToCell(i, (addr - Area(i)) / Span(i), (addr - Area(i)) % Span(i) / Size(i));
      }
    }
    r := ToHeap(addr);
  }

  /** An object's address gives its slab and place back. */
  lemma CellOf(i: nat, j: nat, k: nat)
    requires Proper(Cell(i, j, k))
    ensures var o := Addr(Cell(i, j, k)) - Area(i); Span(i) > 0 && Size(i) > 0 && o / Span(i) == j && o % Span(i) / Size(i) == k
  {
    hide Size, Span, Bits, Limit, Area;
    CellInside(i, j, k);
    ClassShape(i);
    Quotient(Offset(i, j, k), Span(i), j, Times(Size(i), k));
    Quotient(Times(Size(i), k), Size(i), k, 0);
  }

  /** The route from the address of a range leads to the allocator it came from. */
  lemma RouteBack(q: Range, r: Route)
    requires Proper(q) && Routed(Addr(q), r)
    ensures match q
            case Cell(i, j, k) => r == ToCell(i, j, k)
            case Page(f) => r == ToPage(f)
            case Block(s, _) => r == ToHeap(s)
  {
    hide Size, Span, Bits, Limit, Offset;
    match q {
      case Cell(i, j, k) =>
        CellInside(i, j, k);
        ClassShape(i);
        CellOf(i, j, k);
      case Page(f) =>
      case Block(_, _) =>
    }
  }
}
