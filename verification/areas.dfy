/** The three search areas of the Cape Python map and the cells inside them.
    Each area is a numpy slice `img[UL-Y:LR-Y, UL-X:LR-X]` of the map image, so it
    is a half-open rectangle of map pixels; a cell is a pixel given in the area's own
    (local) coordinates. */
module Areas {
  import opened Collections

  /** A cell (x, y) in local coordinates of an area. */
  datatype Cell = Cell(x: int, y: int)

  /** Corner coordinates (UL-X, UL-Y, LR-X, LR-Y) of a search area on the map. */
  datatype Area = Area(ulx: int, uly: int, lrx: int, lry: int)

  const SA1: Area := Area(130, 265, 180, 315)
  const SA2: Area := Area(80, 255, 130, 305)
  const SA3: Area := Area(105, 205, 155, 255)

  /** The slice of area number n (1, 2 or 3). */
  function SearchArea(n: int): Area
    requires 1 <= n <= 3
  {
    if n == 1 then SA1 else if n == 2 then SA2 else SA3
  }

  /** `shape[1]` of the slice: the number of columns (an empty slice when LR-X <= UL-X). */
  function Width(a: Area): nat {
    if a.lrx > a.ulx then a.lrx - a.ulx else 0
  }

  /** `shape[0]` of the slice, which is also Python's `len` of the slice. */
  function Height(a: Area): nat {
    if a.lry > a.uly then a.lry - a.uly else 0
  }

  /** The number of cells of an area. */
  function CellCount(a: Area): nat {
    Width(a) * Height(a)
  }

  /** Map pixel (x, y) lies in the half-open rectangle of the area. */
  predicate InRect(a: Area, x: int, y: int) {
    a.ulx <= x < a.lrx && a.uly <= y < a.lry
  }

  ghost predicate Disjoint(a: Area, b: Area) {
    forall x, y :: !(InRect(a, x, y) && InRect(b, x, y))
  }

  /** The three configured areas do not overlap, and each is a 50 x 50 slice. */
  lemma SearchAreasLayout()
    ensures Disjoint(SA1, SA2) && Disjoint(SA1, SA3) && Disjoint(SA2, SA3)
    ensures forall n | 1 <= n <= 3 :: Width(SearchArea(n)) == 50 && Height(SearchArea(n)) == 50
  {
  }

  /** A local cell lies inside the area's grid. */
  predicate InGrid(a: Area, c: Cell) {
    0 <= c.x < Width(a) && 0 <= c.y < Height(a)
  }

  /** Local cell to map coordinates: add the area's upper-left corner. */
  function ToMap(a: Area, c: Cell): (m: Cell)
    ensures InGrid(a, c) ==> InRect(a, m.x, m.y)
    ensures m.x - a.ulx == c.x && m.y - a.uly == c.y
  {
    Cell(c.x + a.ulx, c.y + a.uly)
  }

  /** Since the areas are disjoint, a map pixel obtained from a local cell of area n
      lies in area n and in no other area. */
  lemma MapPixelIdentifiesArea(n: int, m: int, c: Cell)
    requires 1 <= n <= 3 && 1 <= m <= 3
    requires InGrid(SearchArea(n), c)
    ensures InRect(SearchArea(m), ToMap(SearchArea(n), c).x, ToMap(SearchArea(n), c).y) <==> m == n
  {
    SearchAreasLayout();
    var p := ToMap(SearchArea(n), c);
    if m != n {
      assert Disjoint(SearchArea(n), SearchArea(m));
      assert !(InRect(SearchArea(n), p.x, p.y) && InRect(SearchArea(m), p.x, p.y));
    }
  }

  // ---------------------------------------------------------------------
  // `list(it.product(range(width), range(height)))`: x in the outer loop, so the
  // cell at index i is (i / height, i % height).

  function CellList(w: nat, h: nat): (cells: seq<Cell>)
    ensures |cells| == w * h
  {
    seq(w * h, i requires 0 <= i < w * h => Cell(i / h, i % h))
  }

  /** All cells of an area, in `it.product` order. */
  function CellsOf(a: Area): seq<Cell> {
    CellList(Width(a), Height(a))
  }

  /** d >= 1 copies of a positive h are at least h. */
  lemma MulAtLeast(d: int, h: int)
    requires d >= 1 && h > 0
    ensures d * h >= h
  {
    var e := d - 1;
    assert e * h >= 0;
    assert d * h == e * h + h;
  }

  lemma MulBelow(x: int, w: int, h: int)
    requires 0 <= x < w && h > 0
    ensures x * h + h <= w * h
  {
    var k := w - x - 1;
    assert k * h >= 0;
    assert (x + 1 + k) * h == x * h + h + k * h;
  }

  /** The index of cell (x, y) in the product list, and back. */
  lemma ProductIndex(x: int, y: int, h: int)
    requires x >= 0 && 0 <= y < h
    ensures (x * h + y) / h == x && (x * h + y) % h == y
  {
    var i := x * h + y;
    var q, r := i / h, i % h;
    assert i == q * h + r && 0 <= r < h;
    if q > x {
      MulAtLeast(q - x, h);
    } else if q < x {
      MulAtLeast(x - q, h);
    }
  }

  lemma IndexBelow(i: int, w: int, h: int)
    requires 0 <= i < w * h && h > 0
    ensures 0 <= i / h < w
  {
    var q := i / h;
    assert i == q * h + i % h;
  }

  lemma CellListFacts(w: nat, h: nat)
    ensures |CellList(w, h)| == w * h
    ensures forall c :: c in CellList(w, h) <==> 0 <= c.x < w && 0 <= c.y < h
    ensures Distinct(CellList(w, h))
  {
    var cells := CellList(w, h);
    forall c ensures c in cells <==> 0 <= c.x < w && 0 <= c.y < h {
      if c in cells {
        var i :| 0 <= i < |cells| && cells[i] == c;
        assert h > 0;
        IndexBelow(i, w, h);
      }
      if 0 <= c.x < w && 0 <= c.y < h {
        var i := c.x * h + c.y;
        MulBelow(c.x, w, h);
        ProductIndex(c.x, c.y, h);
        assert cells[i] == c;
      }
    }
    forall i, j | 0 <= i < j < |cells| ensures cells[i] != cells[j] {
      assert h > 0;
      assert i == (i / h) * h + i % h;
      assert j == (j / h) * h + j % h;
    }
  }

  /** The cells of an area: exactly its in-grid cells, each once, Width * Height of them. */
  lemma CellsOfFacts(a: Area)
    ensures |CellsOf(a)| == CellCount(a)
    ensures forall c :: c in CellsOf(a) <==> InGrid(a, c)
    ensures Distinct(CellsOf(a))
    ensures |Elems(CellsOf(a))| == CellCount(a)
  {
    CellListFacts(Width(a), Height(a));
    DistinctCard(CellsOf(a));
  }

  /** A random.shuffle of the area's cell list: any reordering of it. */
  predicate IsShuffleOf(s: seq<Cell>, a: Area) {
    multiset(s) == multiset(CellsOf(a))
  }

  /** A shuffle still holds every in-grid cell exactly once. */
  lemma ShuffleFacts(s: seq<Cell>, a: Area)
    requires IsShuffleOf(s, a)
    ensures |s| == CellCount(a)
    ensures forall c :: c in s <==> InGrid(a, c)
    ensures Distinct(s)
  {
    CellsOfFacts(a);
    PermutationDistinct(s, CellsOf(a));
    assert |s| == |multiset(s)| == |multiset(CellsOf(a))|;
    forall c ensures c in s <==> InGrid(a, c) {
      assert c in s <==> c in multiset(s);
      assert c in CellsOf(a) <==> c in multiset(CellsOf(a));
    }
  }
}
