/**
 The container-map layout (containerLayoutOptions in grm-flight-deck/src/GraphCanvas.tsx): each
 group of elements is a tile, the tiles fill rows of a fixed number of columns, and inside a tile
 the elements fill a small grid. Distances are pixels.
 */
module TileLayout {
  import opened Prelude
  import opened Orders
  import opened ContainerMap
  import GraphElements

  datatype Point = Point(x: int, y: int)

  datatype Box = Box(x: int, y: int, width: int, height: int)

  /** One call of `place`: the ids to lay out together, and whether they form one lane. */
  datatype Group = Group(ids: seq<string>, lane: bool)

  /** The variables the source's closure updates. */
  datatype Cursor = Cursor(x: int, y: int, rowHeight: int, index: nat)

  function Max(a: int, b: int): int
  {
    if a > b then a else b
  }

  function Min(a: int, b: int): int
  {
    if a < b then a else b
  }

  function SqrtFrom(k: nat, n: nat): (r: nat)
    requires k == 0 || (k - 1) * (k - 1) < n
    ensures r * r >= n && (r == 0 || (r - 1) * (r - 1) < n)
    decreases n - k
  {
    if k * k >= n then k
    else
      assert k == 0 || k * k >= k;
      SqrtFrom(k + 1, n)
  }

  /** The square root rounded up. */
  function CeilSqrt(n: nat): (r: nat)
    ensures r * r >= n && (r == 0 || (r - 1) * (r - 1) < n)
  {
    SqrtFrom(0, n)
  }

  function CeilDiv(a: nat, b: nat): nat
    requires b > 0
  {
    (a + b - 1) / b
  }

  ghost predicate Nonempty(groups: seq<Group>)
  {
    forall g :: g in groups ==> g.ids != []
  }

  function InnerColumns(g: Group): (c: nat)
    requires g.ids != []
    ensures 1 <= c
  {
    if g.lane then |g.ids| else Min(3, CeilSqrt(|g.ids|))
  }

  function InnerRows(g: Group): nat
    requires g.ids != []
  {
    CeilDiv(|g.ids|, InnerColumns(g))
  }

  function BoxAt(c: Cursor, g: Group): Box
    requires g.ids != []
  {
    Box(c.x, c.y, Max(310, InnerColumns(g) * 160 + 80), Max(150, InnerRows(g) * 100 + 100))
  }

  function Slot(c: Cursor, innerColumns: nat, member: nat): Point
    requires innerColumns > 0
  {
    Point(c.x + 80 + (member % innerColumns) * 160, c.y + 80 + (member / innerColumns) * 100)
  }

  function Advance(columns: nat, c: Cursor, g: Group): Cursor
    requires columns > 0 && g.ids != []
  {
    var box := BoxAt(c, g);
    if (c.index + 1) % columns == 0 then
      Cursor(0, c.y + Max(c.rowHeight, box.height) + 80, 0, c.index + 1)
    else
      Cursor(c.x + box.width + 80, c.y, Max(c.rowHeight, box.height), c.index + 1)
  }

  function CursorAfter(columns: nat, groups: seq<Group>): Cursor
    requires columns > 0 && Nonempty(groups)
  {
    if groups == [] then Cursor(0, 0, 0, 0)
    else Advance(columns, CursorAfter(columns, groups[..|groups| - 1]), groups[|groups| - 1])
  }

  function PlaceIds(positions: map<string, Point>, c: Cursor, innerColumns: nat, ids: seq<string>): map<string, Point>
    requires innerColumns > 0
  {
    if ids == [] then positions
    else
      PlaceIds(positions, c, innerColumns, ids[..|ids| - 1])[ids[|ids| - 1] := Slot(c, innerColumns, |ids| - 1)]
  }

  function Positions(columns: nat, groups: seq<Group>): map<string, Point>
    requires columns > 0 && Nonempty(groups)
  {
    if groups == [] then map[]
    else
      var init, g := groups[..|groups| - 1], groups[|groups| - 1];
      PlaceIds(Positions(columns, init), CursorAfter(columns, init), InnerColumns(g), g.ids)
  }

  // ---------------------------------------------------------------- the closure

  class Layout {
    const columns: nat
    var positions: map<string, Point>
    var index: nat
    var x: int
    var y: int
    var rowHeight: int

    function At(): Cursor
      reads this
    {
      Cursor(x, y, rowHeight, index)
    }

    constructor (tiles: nat)
      ensures columns == Max(1, CeilSqrt(tiles)) && positions == map[] && At() == Cursor(0, 0, 0, 0)
    {
      columns := Max(1, CeilSqrt(tiles));
      positions := map[];
      index, x, y, rowHeight := 0, 0, 0, 0;
    }

    method Place(ids: seq<string>, lane: bool)
      requires columns > 0 && ids != []
      modifies this
      ensures At() == Advance(columns, old(At()), Group(ids, lane))
      ensures positions == PlaceIds(old(positions), old(At()), InnerColumns(Group(ids, lane)), ids)
    {
      var innerColumns := if lane then |ids| else Min(3, CeilSqrt(|ids|));
      var width := Max(310, innerColumns * 160 + 80);
      var height := Max(150, CeilDiv(|ids|, innerColumns) * 100 + 100);
      for member := 0 to |ids|
        invariant At() == old(At())
        invariant positions == PlaceIds(old(positions), old(At()), innerColumns, ids[..member])
      {
        assert ids[..member + 1][..member] == ids[..member];
        positions := positions[ids[member] := Point(x + 80 + (member % innerColumns) * 160, y + 80 + (member / innerColumns) * 100)];
      }
      assert ids[..|ids|] == ids;
      x := x + width + 80;
      rowHeight := Max(rowHeight, height);
      index := index + 1;
      if index % columns == 0 {
        x := 0;
        y := y + rowHeight + 80;
        rowHeight := 0;
      }
    }
  }

  function GroupOf(r: Region): Group
  {
    Group(if r.collapsed then [r.id] else [r.anchorId] + r.memberIds, r.renderAs == "lane")
  }

  function RegionGroups(regions: seq<Region>): (gs: seq<Group>)
    ensures Nonempty(gs) && |gs| == |regions|
    ensures forall i :: 0 <= i < |regions| ==> gs[i] == GroupOf(regions[i])
  {
    if regions == [] then []
    else RegionGroups(regions[..|regions| - 1]) + [GroupOf(regions[|regions| - 1])]
  }

  function LeafGroups(leaves: seq<string>): (gs: seq<Group>)
    ensures Nonempty(gs) && |gs| == |leaves|
    ensures forall i :: 0 <= i < |leaves| ==> gs[i] == Group([leaves[i]], false)
  {
    if leaves == [] then []
    else LeafGroups(leaves[..|leaves| - 1]) + [Group([leaves[|leaves| - 1]], false)]
  }

  function Groups(regions: seq<Region>, leaves: seq<string>): (gs: seq<Group>)
    ensures Nonempty(gs)
  {
    RegionGroups(regions) + LeafGroups(leaves)
  }

  /** The least number of columns with which the tiles fill no more rows than columns. */
  function Columns(regions: seq<Region>, leaves: seq<string>): (c: nat)
    ensures c > 0 && c * c >= |regions| + |leaves| && (c == 1 || (c - 1) * (c - 1) < |regions| + |leaves|)
  {
    Max(1, CeilSqrt(|regions| + |leaves|))
  }

  lemma Snoc(columns: nat, groups: seq<Group>, g: Group)
    requires columns > 0 && Nonempty(groups) && g.ids != []
    ensures Nonempty(groups + [g])
    ensures CursorAfter(columns, groups + [g]) == Advance(columns, CursorAfter(columns, groups), g)
    ensures Positions(columns, groups + [g])
            == PlaceIds(Positions(columns, groups), CursorAfter(columns, groups), InnerColumns(g), g.ids)
  {
    assert (groups + [g])[..|groups|] == groups;
  }

  ghost predicate Laid(layout: Layout, columns: nat, groups: seq<Group>)
    requires columns > 0 && Nonempty(groups)
    reads layout
  {
    layout.columns == columns && layout.At() == CursorAfter(columns, groups) && layout.positions == Positions(columns, groups)
  }

  method PlaceGroup(layout: Layout, ghost columns: nat, ghost groups: seq<Group>, ids: seq<string>, lane: bool)
    requires columns > 0 && Nonempty(groups) && Laid(layout, columns, groups) && ids != []
    modifies layout
    ensures Laid(layout, columns, groups + [Group(ids, lane)])
  {
    Snoc(columns, groups, Group(ids, lane));
    hide CursorAfter, Positions, Advance, PlaceIds, InnerColumns, CeilSqrt;
    layout.Place(ids, lane);
  }

  lemma NextRegion(regions: seq<Region>, i: nat)
    requires i < |regions|
    ensures RegionGroups(regions[..i + 1]) == RegionGroups(regions[..i]) + [GroupOf(regions[i])]
  {
    assert regions[..i + 1][..i] == regions[..i];
  }

  method LayRegions(layout: Layout, ghost columns: nat, regions: seq<Region>)
    requires columns > 0 && Laid(layout, columns, [])
    modifies layout
    ensures Laid(layout, columns, RegionGroups(regions))
  {
    hide Laid, Nonempty;
    for i := 0 to |regions|
      invariant Laid(layout, columns, RegionGroups(regions[..i]))
    {
      NextRegion(regions, i);
      var region := regions[i];
      PlaceGroup(layout, columns, RegionGroups(regions[..i]),
                 if region.collapsed then [region.id] else [region.anchorId] + region.memberIds, region.renderAs == "lane");
    }
    assert regions[..|regions|] == regions;
  }

  lemma NextLeaf(groups: seq<Group>, leaves: seq<string>, i: nat)
    requires i < |leaves| && Nonempty(groups)
    ensures Nonempty(groups + LeafGroups(leaves[..i]))
    ensures groups + LeafGroups(leaves[..i + 1]) == groups + LeafGroups(leaves[..i]) + [Group([leaves[i]], false)]
  {
    assert leaves[..i + 1][..i] == leaves[..i];
  }

  method LayLeaves(layout: Layout, ghost columns: nat, ghost groups: seq<Group>, leaves: seq<string>)
    requires columns > 0 && Nonempty(groups) && Laid(layout, columns, groups)
    modifies layout
    ensures Laid(layout, columns, groups + LeafGroups(leaves))
  {
    hide Laid;
    assert groups + [] == groups;
    for i := 0 to |leaves|
      invariant Laid(layout, columns, groups + LeafGroups(leaves[..i]))
    {
      NextLeaf(groups, leaves, i);
      PlaceGroup(layout, columns, groups + LeafGroups(leaves[..i]), [leaves[i]], false);
    }
    assert leaves[..|leaves|] == leaves;
  }

  /** The positions of a whole map: the regions first, then the leaves outside every region. */
  method LayOut(regions: seq<Region>, leaves: seq<string>) returns (positions: map<string, Point>)
    ensures positions == Positions(Columns(regions, leaves), Groups(regions, leaves))
  {
    var layout := new Layout(|regions| + |leaves|);
    LayRegions(layout, Columns(regions, leaves), regions);
    LayLeaves(layout, Columns(regions, leaves), RegionGroups(regions), leaves);
    positions := layout.positions;
  }

  // ---------------------------------------------------------- tiles are disjoint

  /** The box of the k-th tile. */
  function BoxOf(columns: nat, groups: seq<Group>, k: nat): Box
    requires columns > 0 && Nonempty(groups) && k < |groups|
  {
    BoxAt(CursorAfter(columns, groups[..k]), groups[k])
  }

  /** The boxes leave a gap of 80 between them, sideways or downwards. */
  predicate Apart(a: Box, b: Box)
  {
    a.x + a.width + 80 <= b.x || a.y + a.height + 80 <= b.y
  }

  lemma DivNext(n: nat, c: nat)
    requires c > 0
    ensures if (n + 1) % c == 0 then (n + 1) / c == n / c + 1 else (n + 1) / c == n / c
  {
    var q, r := n / c, n % c;
    assert n == q * c + r;
    if r + 1 == c {
      assert n + 1 == (q + 1) * c;
      QuotientIs(n + 1, c, q + 1, 0);
    } else {
      QuotientIs(n + 1, c, q, r + 1);
    }
  }

  lemma QuotientIs(n: nat, c: nat, q: nat, r: nat)
    requires n == q * c + r && r < c
    ensures n / c == q && n % c == r
  {
    var q', r' := n / c, n % c;
    assert n == q' * c + r';
    assert q' < q ==> (q' + 1) * c <= q * c;
    assert q < q' ==> (q + 1) * c <= q' * c;
  }

  lemma DivMono(m: nat, n: nat, c: nat)
    requires c > 0 && m <= n
    ensures m / c <= n / c
  {
    var a, b := m / c, n / c;
    assert a > b ==> (b + 1) * c <= a * c;
  }

  predicate Behind(c: Cursor, box: Box, row: int, current: int)
  {
    if row < current then box.y + box.height + 80 <= c.y
    else box.y == c.y && box.x + box.width + 80 <= c.x && box.height <= c.rowHeight
  }

  /** The boxes so far: rows above end 80 above the cursor, this row's end 80 to its left. */
  ghost predicate RowsBehind(columns: nat, groups: seq<Group>)
    requires columns > 0 && Nonempty(groups)
  {
    var c := CursorAfter(columns, groups);
    && c.index == |groups|
    && forall k :: 0 <= k < |groups| ==> Behind(c, BoxOf(columns, groups, k), k / columns, |groups| / columns)
  }

  lemma BoxOfPrefix(columns: nat, groups: seq<Group>, g: Group, k: nat)
    requires columns > 0 && Nonempty(groups) && g.ids != [] && k <= |groups|
    ensures Nonempty(groups + [g])
    ensures k < |groups| ==> BoxOf(columns, groups + [g], k) == BoxOf(columns, groups, k)
    ensures k == |groups| ==> BoxOf(columns, groups + [g], k) == BoxAt(CursorAfter(columns, groups), g)
  {
    assert (groups + [g])[..k] == groups[..k];
    assert groups[..|groups|] == groups;
  }

  lemma {:induction false} RowsStayBehind(columns: nat, groups: seq<Group>)
    requires columns > 0 && Nonempty(groups)
    ensures RowsBehind(columns, groups)
  {
    if groups != [] {
      var init, g := groups[..|groups| - 1], groups[|groups| - 1];
      assert groups == init + [g];
      RowsStayBehind(columns, init);
      hide RowsBehind;
      NextRows(columns, init, g);
    }
  }

  lemma NextRows(columns: nat, init: seq<Group>, g: Group)
    requires columns > 0 && Nonempty(init) && g.ids != [] && RowsBehind(columns, init)
    ensures Nonempty(init + [g]) && RowsBehind(columns, init + [g])
  {
    hide CursorAfter, BoxOf, BoxAt, Behind, Positions;
    Snoc(columns, init, g);
    DivNext(|init|, columns);
    var c, n := CursorAfter(columns, init), |init|;
    AdvanceIndex(columns, c, g);
    hide Advance;
    forall k | 0 <= k < n + 1
      ensures Behind(CursorAfter(columns, init + [g]), BoxOf(columns, init + [g], k), k / columns, (n + 1) / columns)
    {
      BoxOfPrefix(columns, init, g, k);
      DivMono(k, n, columns);
      BehindStep(columns, c, g, BoxOf(columns, init + [g], k), k / columns, n / columns, (n + 1) / columns);
    }
  }

  lemma AdvanceIndex(columns: nat, c: Cursor, g: Group)
    requires columns > 0 && g.ids != []
    ensures Advance(columns, c, g).index == c.index + 1
  {
    hide BoxAt;
  }

  /** One more tile keeps the boxes behind the cursor, and leaves its own behind. */
  lemma BehindStep(columns: nat, c: Cursor, g: Group, box: Box, row: int, current: int, next: int)
    requires columns > 0 && g.ids != [] && row <= current
    requires Behind(c, box, row, current) || (box == BoxAt(c, g) && row == current)
    requires next == if (c.index + 1) % columns == 0 then current + 1 else current
    ensures Behind(Advance(columns, c, g), box, row, next)
  {
    hide InnerColumns, InnerRows;
  }

  /** Every two tiles are apart. */
  lemma TilesApart(columns: nat, groups: seq<Group>, j: nat, k: nat)
    requires columns > 0 && Nonempty(groups) && j < k < |groups|
    ensures Apart(BoxOf(columns, groups, j), BoxOf(columns, groups, k))
  {
    var before := groups[..k];
    RowsStayBehind(columns, before);
    assert before[..j] == groups[..j];
    assert BoxOf(columns, before, j) == BoxOf(columns, groups, j);
  }

  /** A row is a run of `columns` tiles: two tiles share their top exactly when they share a row. */
  lemma {:induction false} RowsAreFull(columns: nat, groups: seq<Group>, j: nat, k: nat)
    requires columns > 0 && Nonempty(groups) && j <= k < |groups|
    ensures BoxOf(columns, groups, j).y == BoxOf(columns, groups, k).y <==> j / columns == k / columns
  {
    var before := groups[..k];
    RowsStayBehind(columns, before);
    DivMono(j, k, columns);
    assert before[..j] == groups[..j];
    if j < k {
      assert BoxOf(columns, before, j) == BoxOf(columns, groups, j);
    }
  }

  lemma CursorNext(columns: nat, groups: seq<Group>, k: nat)
    requires columns > 0 && Nonempty(groups) && k < |groups|
    ensures CursorAfter(columns, groups[..k + 1]) == Advance(columns, CursorAfter(columns, groups[..k]), groups[k])
  {
    assert groups[..k + 1] == groups[..k] + [groups[k]];
    Snoc(columns, groups[..k], groups[k]);
  }

  /** Tile j comes before tile n, in the row of the one just before it. */
  predicate RowMate(j: nat, n: nat, columns: nat)
    requires columns > 0
  {
    j < n && j / columns == (n - 1) / columns
  }

  /** The row height is that of the tallest tile of the row so far. */
  ghost predicate RowTallest(columns: nat, groups: seq<Group>, n: nat)
    requires columns > 0 && Nonempty(groups) && n <= |groups|
  {
    var c := CursorAfter(columns, groups[..n]);
    && c.index == n
    && if n % columns == 0 then c.rowHeight == 0
       else exists j: nat :: j < |groups| && RowMate(j, n, columns) && BoxOf(columns, groups, j).height == c.rowHeight
  }

  /** The height that the row gets with one more tile is that of one of its tiles. */
  lemma RowHeightOf(columns: nat, groups: seq<Group>, n: nat)
    requires columns > 0 && Nonempty(groups) && n < |groups| && RowTallest(columns, groups, n)
    ensures exists j: nat :: j < |groups| && RowMate(j, n + 1, columns)
                             && BoxOf(columns, groups, j).height == Max(CursorAfter(columns, groups[..n]).rowHeight, BoxOf(columns, groups, n).height)
  {
    var c, box := CursorAfter(columns, groups[..n]), BoxOf(columns, groups, n);
    TallBox(c, groups[n]);
    hide CursorAfter, BoxOf;
    if c.rowHeight > box.height {
      assert n % columns != 0;
      var j: nat :| j < |groups| && RowMate(j, n, columns) && BoxOf(columns, groups, j).height == c.rowHeight;
      DivNext(n - 1, columns);
      assert RowMate(j, n + 1, columns);
    } else {
      assert RowMate(n, n + 1, columns);
    }
  }

  lemma TallBox(c: Cursor, g: Group)
    requires g.ids != []
    ensures BoxAt(c, g).height > 0
  {
  }

  lemma {:induction false} RowHeights(columns: nat, groups: seq<Group>, n: nat)
    requires columns > 0 && Nonempty(groups) && n <= |groups|
    ensures RowTallest(columns, groups, n)
  {
    if n == 0 {
      assert groups[..0] == [];
    } else {
      RowHeights(columns, groups, n - 1);
      RowHeightOf(columns, groups, n - 1);
      CursorNext(columns, groups, n - 1);
      hide CursorAfter, BoxAt, RowMate;
    }
  }

  /**
   Where each tile is put: the first in the corner, the next of a row 80 beside the one before it,
   and the first of another row 80 below the tallest tile of the row before.
   */
  lemma TilePlaced(columns: nat, groups: seq<Group>, k: nat)
    requires columns > 0 && Nonempty(groups) && k < |groups|
    ensures k == 0 ==> BoxOf(columns, groups, k).x == 0 && BoxOf(columns, groups, k).y == 0
    ensures k % columns != 0 ==>
              && BoxOf(columns, groups, k).x == BoxOf(columns, groups, k - 1).x + BoxOf(columns, groups, k - 1).width + 80
              && BoxOf(columns, groups, k).y == BoxOf(columns, groups, k - 1).y
    ensures k > 0 && k % columns == 0 ==>
              && BoxOf(columns, groups, k).x == 0
              && (forall j: nat :: RowMate(j, k, columns) ==>
                    BoxOf(columns, groups, j).y + BoxOf(columns, groups, j).height + 80 <= BoxOf(columns, groups, k).y)
              && exists j: nat :: j < |groups| && RowMate(j, k, columns)
                                  && BoxOf(columns, groups, k).y == BoxOf(columns, groups, k - 1).y + BoxOf(columns, groups, j).height + 80
  {
    CornerAt(columns, groups, k);
    if k == 0 {
      assert groups[..0] == [];
    } else {
      CornerAt(columns, groups, k - 1);
      CursorNext(columns, groups, k - 1);
      RowHeights(columns, groups, k - 1);
      IndexIs(columns, groups, k - 1);
      RowHeightOf(columns, groups, k - 1);
      if k % columns == 0 {
        RowAbove(columns, groups, k);
      }
      hide CursorAfter, BoxAt, RowMate, RowTallest;
    }
  }

  lemma IndexIs(columns: nat, groups: seq<Group>, n: nat)
    requires columns > 0 && Nonempty(groups) && n <= |groups| && RowTallest(columns, groups, n)
    ensures CursorAfter(columns, groups[..n]).index == n
  {
  }

  lemma BoxesOfPrefix(columns: nat, groups: seq<Group>, k: nat)
    requires columns > 0 && Nonempty(groups) && k <= |groups|
    ensures forall j :: 0 <= j < k ==> BoxOf(columns, groups[..k], j) == BoxOf(columns, groups, j)
  {
    hide CursorAfter, BoxAt;
    forall j | 0 <= j < k
      ensures BoxOf(columns, groups[..k], j) == BoxOf(columns, groups, j)
    {
      assert groups[..k][..j] == groups[..j];
    }
  }

  lemma RowAbove(columns: nat, groups: seq<Group>, k: nat)
    requires columns > 0 && Nonempty(groups) && 0 < k < |groups| && k % columns == 0
    ensures forall j: nat :: RowMate(j, k, columns) ==>
              BoxOf(columns, groups, j).y + BoxOf(columns, groups, j).height + 80 <= BoxOf(columns, groups, k).y
  {
    RowsStayBehind(columns, groups[..k]);
    BoxesOfPrefix(columns, groups, k);
    CornerAt(columns, groups, k);
    DivNext(k - 1, columns);
    hide CursorAfter, BoxAt;
    forall j: nat | RowMate(j, k, columns)
      ensures BoxOf(columns, groups, j).y + BoxOf(columns, groups, j).height + 80 <= BoxOf(columns, groups, k).y
    {
      assert Behind(CursorAfter(columns, groups[..k]), BoxOf(columns, groups[..k], j), j / columns, k / columns);
    }
  }

  lemma CornerAt(columns: nat, groups: seq<Group>, k: nat)
    requires columns > 0 && Nonempty(groups) && k < |groups|
    ensures BoxOf(columns, groups, k).x == CursorAfter(columns, groups[..k]).x
    ensures BoxOf(columns, groups, k).y == CursorAfter(columns, groups[..k]).y
  {
    hide CursorAfter;
  }

  // ------------------------------------------------------ positions in the tiles

  /** At least 160 apart sideways or 100 apart in height. */
  predicate Separated(p: Point, q: Point)
  {
    p.x + 160 <= q.x || q.x + 160 <= p.x || p.y + 100 <= q.y || q.y + 100 <= p.y
  }

  /** The members of a tile stay 80 inside its left and top and 120 inside its right and bottom. */
  lemma SlotInBox(c: Cursor, g: Group, m: nat)
    requires m < |g.ids|
    ensures var b, p := BoxAt(c, g), Slot(c, InnerColumns(g), m);
            b.x + 80 <= p.x <= b.x + b.width - 160 && b.y + 80 <= p.y <= b.y + b.height - 120
  {
    hide InnerColumns, CeilDiv;
    GridBounds(m, |g.ids|, InnerColumns(g));
  }

  lemma GridBounds(m: nat, n: nat, c: nat)
    requires m < n && c > 0
    ensures m % c <= c - 1 && m / c <= CeilDiv(n, c) - 1
  {
    DivMono(m, n - 1, c);
    RoundUp(n, c);
  }

  lemma RoundUp(n: nat, c: nat)
    requires n > 0 && c > 0
    ensures CeilDiv(n, c) == (n - 1) / c + 1
  {
    var q, r := (n - 1) / c, (n - 1) % c;
    assert n + c - 1 == (q + 1) * c + r;
    QuotientIs(n + c - 1, c, q + 1, r);
  }

  lemma SlotsSeparated(c: Cursor, ic: nat, m: nat, n: nat)
    requires ic > 0 && m != n
    ensures Separated(Slot(c, ic, m), Slot(c, ic, n))
  {
    assert m == (m / ic) * ic + m % ic && n == (n / ic) * ic + n % ic;
  }

  /** No id is handed to `place` twice. */
  ghost predicate AllDistinct(groups: seq<Group>)
  {
    forall k, l, m, n :: 0 <= k < |groups| && 0 <= l < |groups| && 0 <= m < |groups[k].ids| && 0 <= n < |groups[l].ids| ==>
      groups[k].ids[m] == groups[l].ids[n] ==> k == l && m == n
  }

  /** The slot of member m of tile k. */
  function SlotOf(columns: nat, groups: seq<Group>, k: nat, m: nat): Point
    requires columns > 0 && Nonempty(groups) && k < |groups|
  {
    Slot(CursorAfter(columns, groups[..k]), InnerColumns(groups[k]), m)
  }

  lemma {:induction false} PlaceIdsExact(positions: map<string, Point>, c: Cursor, ic: nat, ids: seq<string>)
    requires ic > 0 && NoDup(ids)
    ensures var after := PlaceIds(positions, c, ic, ids);
            && (forall x :: x in after <==> x in positions || x in ids)
            && (forall x :: x in positions && x !in ids ==> after[x] == positions[x])
            && (forall m :: 0 <= m < |ids| ==> after[ids[m]] == Slot(c, ic, m))
  {
    if ids != [] {
      hide Slot;
      var init, last := ids[..|ids| - 1], ids[|ids| - 1];
      PlaceIdsExact(positions, c, ic, init);
      assert ids == init + [last];
    }
  }

  ghost predicate KeysExact(positions: map<string, Point>, groups: seq<Group>)
  {
    forall x :: x in positions <==> exists k :: 0 <= k < |groups| && x in groups[k].ids
  }

  lemma KeysExtend(before: map<string, Point>, after: map<string, Point>, init: seq<Group>, g: Group)
    requires KeysExact(before, init) && forall x :: x in after <==> x in before || x in g.ids
    ensures KeysExact(after, init + [g])
  {
    var groups := init + [g];
    forall x
      ensures x in after <==> exists k :: 0 <= k < |groups| && x in groups[k].ids
    {
      if x in before {
        var k :| 0 <= k < |init| && x in init[k].ids;
        assert x in groups[k].ids;
      }
      if x in g.ids {
        assert x in groups[|init|].ids;
      }
      if k :| 0 <= k < |groups| && x in groups[k].ids {
        assert k < |init| ==> x in init[k].ids;
      }
    }
  }

  lemma SlotOfPrefix(columns: nat, init: seq<Group>, g: Group, k: nat, m: nat)
    requires columns > 0 && Nonempty(init) && g.ids != [] && k <= |init|
    ensures Nonempty(init + [g])
    ensures k < |init| ==> SlotOf(columns, init + [g], k, m) == SlotOf(columns, init, k, m)
    ensures k == |init| ==> SlotOf(columns, init + [g], k, m) == Slot(CursorAfter(columns, init), InnerColumns(g), m)
  {
    hide CursorAfter, InnerColumns, Slot;
    assert (init + [g])[..k] == init[..k];
    assert init[..|init|] == init;
  }

  /** Every id handed to `place` gets exactly one position, the slot of its place in its tile. */
  lemma {:induction false} PositionsExact(columns: nat, groups: seq<Group>)
    requires columns > 0 && Nonempty(groups) && AllDistinct(groups)
    ensures KeysExact(Positions(columns, groups), groups)
    ensures forall k, m :: 0 <= k < |groups| && 0 <= m < |groups[k].ids| ==>
              groups[k].ids[m] in Positions(columns, groups)
              && Positions(columns, groups)[groups[k].ids[m]] == SlotOf(columns, groups, k, m)
  {
    if groups != [] {
      var init, g := groups[..|groups| - 1], groups[|groups| - 1];
      assert groups == init + [g];
      DistinctPrefix(init, g);
      PositionsExact(columns, init);
      PlaceIdsExact(Positions(columns, init), CursorAfter(columns, init), InnerColumns(g), g.ids);
      var before, after := Positions(columns, init), Positions(columns, groups);
      hide CursorAfter, PlaceIds, Slot, Positions, InnerColumns, AllDistinct, SlotOf, KeysExact;
      KeysExtend(before, after, init, g);
      forall k, m | 0 <= k < |groups| && 0 <= m < |groups[k].ids|
        ensures groups[k].ids[m] in after && after[groups[k].ids[m]] == SlotOf(columns, groups, k, m)
      {
        SlotOfPrefix(columns, init, g, k, m);
        if k < |init| {
          assert groups[k] == init[k];
        } else {
          assert groups[k] == g;
        }
      }
    }
  }

  lemma DistinctPrefix(init: seq<Group>, g: Group)
    requires AllDistinct(init + [g])
    ensures AllDistinct(init) && NoDup(g.ids)
    ensures forall k, m :: 0 <= k < |init| && 0 <= m < |init[k].ids| ==> init[k].ids[m] !in g.ids
  {
    var all := init + [g];
    assert all[|init|] == g;
    forall k, l, m, n | 0 <= k < |init| && 0 <= l < |init| && 0 <= m < |init[k].ids| && 0 <= n < |init[l].ids|
      && init[k].ids[m] == init[l].ids[n]
      ensures k == l && m == n
    {
      assert all[k] == init[k] && all[l] == init[l];
      assert all[k].ids[m] == all[l].ids[n];
    }
    forall m, n | 0 <= m < n < |g.ids|
      ensures g.ids[m] != g.ids[n]
    {
      assert all[|init|].ids[m] == all[|init|].ids[n] ==> m == n;
    }
    forall k, m | 0 <= k < |init| && 0 <= m < |init[k].ids|
      ensures init[k].ids[m] !in g.ids
    {
      assert all[k].ids[m] == init[k].ids[m];
      assert forall n :: 0 <= n < |all[|init|].ids| ==> all[|init|].ids[n] != all[k].ids[m];
    }
  }

  /** The columns of a region's own grid: all in one row for a lane, and three at most otherwise. */
  function GridColumns(lane: bool, count: nat): nat
  {
    if lane then count else if count <= 1 then 1 else if count <= 4 then 2 else 3
  }

  lemma InnerColumnsExactly(g: Group)
    requires g.ids != []
    ensures InnerColumns(g) == GridColumns(g.lane, |g.ids|)
  {
    var r := CeilSqrt(|g.ids|);
    hide CeilSqrt;
    if r >= 2 {
      SquaresGrow(r - 1, 1);
    }
    if r >= 3 {
      SquaresGrow(r - 1, 2);
    } else {
      assert r == 0 || r == 1 || r == 2;
    }
  }

  /** A tile's size: 310 wide with one column, and then 160 for each; 100 high for each row and one more. */
  lemma TileSize(c: Cursor, g: Group)
    requires g.ids != []
    ensures var columns := GridColumns(g.lane, |g.ids|);
            && BoxAt(c, g).width == (if columns == 1 then 310 else 80 + columns * 160)
            && BoxAt(c, g).height == 100 + CeilDiv(|g.ids|, columns) * 100
            && BoxAt(c, g).x == c.x && BoxAt(c, g).y == c.y
  {
    InnerColumnsExactly(g);
    RoundUp(|g.ids|, InnerColumns(g));
    hide CeilDiv;
  }

  lemma SquaresGrow(a: nat, b: nat)
    requires a >= b
    ensures a * a >= b * b
  {
    assert a * a - b * b == (a - b) * (a + b);
  }

  /**
   An open region lays its anchor and then its members out row by row, a collapsed one itself alone;
   only one drawn as a lane puts all of them into one row.
   */
  lemma RegionLaidOut(columns: nat, regions: seq<Region>, leaves: seq<string>, i: nat, m: nat)
    requires columns > 0 && i < |regions| && AllDistinct(Groups(regions, leaves))
    requires m < if regions[i].collapsed then 1 else 1 + |regions[i].memberIds|
    ensures var ids := if regions[i].collapsed then [regions[i].id] else [regions[i].anchorId] + regions[i].memberIds;
            var c := GridColumns(regions[i].renderAs == "lane", |ids|);
            var positions := Positions(columns, Groups(regions, leaves));
            && ids[0] in positions && ids[m] in positions && c > 0
            && positions[ids[0]] == InCorner(BoxOf(columns, Groups(regions, leaves), i))
            && positions[ids[m]].x == positions[ids[0]].x + m % c * 160 && positions[ids[m]].y == positions[ids[0]].y + m / c * 100
  {
    var groups := Groups(regions, leaves);
    assert groups[i] == GroupOf(regions[i]);
    InnerColumnsExactly(groups[i]);
    FirstSlot(columns, groups, i);
    hide Positions, InnerColumns, CursorAfter, GridColumns, BoxOf, SlotOf, InCorner, Groups, AllDistinct;
    PlacedAt(columns, groups, i, 0);
    PlacedAt(columns, groups, i, m);
    SlotsInGrid(columns, groups, i, m);
  }

  lemma PlacedAt(columns: nat, groups: seq<Group>, k: nat, m: nat)
    requires columns > 0 && Nonempty(groups) && AllDistinct(groups) && k < |groups| && m < |groups[k].ids|
    ensures groups[k].ids[m] in Positions(columns, groups)
    ensures Positions(columns, groups)[groups[k].ids[m]] == SlotOf(columns, groups, k, m)
  {
    PositionsExact(columns, groups);
    hide Positions, AllDistinct, SlotOf, KeysExact;
  }

  lemma FirstSlot(columns: nat, groups: seq<Group>, k: nat)
    requires columns > 0 && Nonempty(groups) && k < |groups|
    ensures SlotOf(columns, groups, k, 0) == InCorner(BoxOf(columns, groups, k))
  {
    hide CursorAfter, InnerColumns;
    var c := InnerColumns(groups[k]);
    assert 0 % c == 0 && 0 / c == 0;
  }

  lemma SlotsInGrid(columns: nat, groups: seq<Group>, k: nat, m: nat)
    requires columns > 0 && Nonempty(groups) && k < |groups|
    ensures var c := InnerColumns(groups[k]);
            && SlotOf(columns, groups, k, m).x == SlotOf(columns, groups, k, 0).x + m % c * 160
            && SlotOf(columns, groups, k, m).y == SlotOf(columns, groups, k, 0).y + m / c * 100
  {
    hide CursorAfter, InnerColumns;
    var c := InnerColumns(groups[k]);
    assert 0 % c == 0 && 0 / c == 0;
  }

  function InCorner(b: Box): Point
  {
    Point(b.x + 80, b.y + 80)
  }

  /** A leaf outside the regions has a tile to itself, after all regions, in order. */
  lemma LeafLaidOut(columns: nat, regions: seq<Region>, leaves: seq<string>, j: nat)
    requires columns > 0 && j < |leaves| && AllDistinct(Groups(regions, leaves))
    ensures var groups := Groups(regions, leaves);
            && |groups| == |regions| + |leaves| && leaves[j] in Positions(columns, groups)
            && Positions(columns, groups)[leaves[j]] == InCorner(BoxOf(columns, groups, |regions| + j))
  {
    var groups := Groups(regions, leaves);
    var k := |regions| + j;
    assert groups[k] == Group([leaves[j]], false);
    FirstSlot(columns, groups, k);
    hide Positions, AllDistinct, BoxOf, SlotOf, InCorner, Groups;
    PlacedAt(columns, groups, k, 0);
  }

  lemma PositionOf(columns: nat, groups: seq<Group>, x: string) returns (k: nat, m: nat)
    requires columns > 0 && Nonempty(groups) && AllDistinct(groups)
    requires x in Positions(columns, groups)
    ensures k < |groups| && m < |groups[k].ids| && groups[k].ids[m] == x
    ensures Positions(columns, groups)[x] == SlotOf(columns, groups, k, m)
  {
    PositionsExact(columns, groups);
    hide Positions, AllDistinct, SlotOf;
    k :| 0 <= k < |groups| && x in groups[k].ids;
    m :| 0 <= m < |groups[k].ids| && groups[k].ids[m] == x;
  }

  /** Any two positions are at least 160 apart sideways or 100 in height, whatever the tiles. */
  lemma PositionsSeparated(columns: nat, groups: seq<Group>, x: string, y: string)
    requires columns > 0 && Nonempty(groups) && AllDistinct(groups)
    requires x in Positions(columns, groups) && y in Positions(columns, groups) && x != y
    ensures Separated(Positions(columns, groups)[x], Positions(columns, groups)[y])
  {
    hide Positions, AllDistinct, SlotOf, Separated;
    var k, m := PositionOf(columns, groups, x);
    var l, n := PositionOf(columns, groups, y);
    SlotsOfGroupsSeparated(columns, groups, k, m, l, n);
  }

  lemma SlotsOfGroupsSeparated(columns: nat, groups: seq<Group>, k: nat, m: nat, l: nat, n: nat)
    requires columns > 0 && Nonempty(groups) && k < |groups| && l < |groups|
    requires m < |groups[k].ids| && n < |groups[l].ids| && (k != l || m != n)
    ensures Separated(SlotOf(columns, groups, k, m), SlotOf(columns, groups, l, n))
  {
    hide CursorAfter, BoxAt, Slot, InnerColumns;
    if k == l {
      SlotsSeparated(CursorAfter(columns, groups[..k]), InnerColumns(groups[k]), m, n);
    } else {
      SlotInBox(CursorAfter(columns, groups[..k]), groups[k], m);
      SlotInBox(CursorAfter(columns, groups[..l]), groups[l], n);
      if k < l {
        TilesApart(columns, groups, k, l);
      } else {
        TilesApart(columns, groups, l, k);
      }
    }
  }

  // -------------------------------------------------------- the drawing laid out

  /** The drawn nodes outside every region, in drawing order. */
  function FreeLeaves(elements: seq<GraphElements.Element>): (leaves: seq<string>)
  {
    if elements == [] then []
    else
      var d := elements[|elements| - 1];
      FreeLeaves(elements[..|elements| - 1]) + (if d.NodeElement? && d.parent.None? then [d.id] else [])
  }

  /** Drawn, and no container of others: a node, or a collapsed region. */
  predicate IsLeaf(d: GraphElements.Element)
  {
    d.NodeElement? || (d.RegionElement? && d.collapsed)
  }

  lemma {:induction false} FreeLeavesExact(elements: seq<GraphElements.Element>)
    requires forall i, j :: 0 <= i < j < |elements| && elements[i].NodeElement? && elements[j].NodeElement?
               ==> elements[i].id != elements[j].id
    ensures NoDup(FreeLeaves(elements))
    ensures forall x :: x in FreeLeaves(elements) <==> exists d :: d in elements && d.NodeElement? && d.parent.None? && d.id == x
  {
    if elements != [] {
      var init, last := elements[..|elements| - 1], elements[|elements| - 1];
      FreeLeavesExact(init);
      assert elements == init + [last];
      assert last.NodeElement? ==> last.id !in FreeLeaves(init);
      forall x
        ensures x in FreeLeaves(elements) <==> exists d :: d in elements && d.NodeElement? && d.parent.None? && d.id == x
      {
        if d :| d in init && d.NodeElement? && d.parent.None? && d.id == x {
          assert d in elements;
        }
        if last.NodeElement? && last.parent.None? && last.id == x {
          assert last in elements;
        }
      }
    }
  }

  /** The ids a region hands to `place`. */
  lemma RegionIds(r: Region, x: string)
    ensures x in GroupOf(r).ids <==> if r.collapsed then x == r.id else InRegion(x, r)
  {
  }

  /** Region groups and free leaves never share an id. */
  lemma DistinctGroups(nodes: seq<Node>, regions: seq<Region>, owner: map<string, string>, leaves: seq<string>)
    requires GraphElements.Fits(nodes, regions, owner) && NoDup(leaves)
    requires forall x :: x in leaves ==> x in NodeModels(nodes) && x !in owner
    ensures AllDistinct(Groups(regions, leaves))
  {
    var gs := Groups(regions, leaves);
    var a := |regions|;
    hide RegionGroups, LeafGroups, NodeModels;
    forall k, l, m, n | 0 <= k < |gs| && 0 <= l < |gs| && 0 <= m < |gs[k].ids| && 0 <= n < |gs[l].ids| && gs[k].ids[m] == gs[l].ids[n]
      ensures k == l && m == n
    {
      var x := gs[k].ids[m];
      if k < a {
        RegionIds(regions[k], x);
        assert regions[k] in regions;
      } else {
        assert gs[k] == Group([leaves[k - a]], false);
      }
      if l < a {
        RegionIds(regions[l], x);
        assert regions[l] in regions;
      } else {
        assert gs[l] == Group([leaves[l - a]], false);
      }
      assert k == l;
      if k < a {
        OwnIdsDistinct(regions[k], m, n);
      }
    }
  }

  lemma OwnIdsDistinct(r: Region, m: nat, n: nat)
    requires NoDup(r.memberIds) && r.anchorId !in r.memberIds
    requires m < |GroupOf(r).ids| && n < |GroupOf(r).ids| && GroupOf(r).ids[m] == GroupOf(r).ids[n]
    ensures m == n
  {
    if !r.collapsed && m > 0 && n > 0 {
      assert r.memberIds[m - 1] == r.memberIds[n - 1];
    }
  }

  lemma NodeElementsOnce(nodes: seq<Node>, edges: seq<Edge>, regions: seq<Region>, owner: map<string, string>)
    requires GraphElements.Fits(nodes, regions, owner)
    requires forall i, j :: 0 <= i < j < |nodes| ==> nodes[i].id != nodes[j].id
    ensures var elements := GraphElements.Elements(nodes, edges, regions, owner);
            forall i, j :: 0 <= i < j < |elements| && elements[i].NodeElement? && elements[j].NodeElement?
              ==> elements[i].id != elements[j].id
  {
    var models, byId := NodeModels(nodes), GraphElements.RegionsById(regions);
    var boxes := GraphElements.RegionElements(models, regions);
    var shown := GraphElements.NodeElements(byId, owner, nodes);
    var drawn := GraphElements.EdgeElements(models, byId, owner, edges);
    GraphElements.RegionsDrawn(models, regions);
    GraphElements.NodeElementsUnique(byId, owner, nodes);
    GraphElements.EdgeElementsFrom(models, byId, owner, edges);
    var elements := boxes + shown + drawn;
    assert elements == GraphElements.Elements(nodes, edges, regions, owner);
    hide GraphElements.RegionElements, GraphElements.NodeElements, GraphElements.EdgeElements, NodeModels,
      GraphElements.RegionsById, GraphElements.Fits, GraphElements.Elements, GraphElements.Skipped;
    forall i, j | 0 <= i < j < |elements| && elements[i].NodeElement? && elements[j].NodeElement?
      ensures elements[i].id != elements[j].id
    {
      InMiddle(boxes, shown, drawn, i);
      InMiddle(boxes, shown, drawn, j);
    }
  }

  lemma InMiddle(a: seq<GraphElements.Element>, b: seq<GraphElements.Element>, c: seq<GraphElements.Element>, i: nat)
    requires i < |a + b + c| && (a + b + c)[i].NodeElement?
    requires forall k :: 0 <= k < |a| ==> a[k].RegionElement?
    requires forall d :: d in c ==> d.EdgeElement?
    ensures |a| <= i < |a| + |b| && (a + b + c)[i] == b[i - |a|]
  {
    var whole := a + b + c;
    assert forall k :: |a| + |b| <= k < |whole| ==> whole[k] == c[k - |a| - |b|] && whole[k] in c;
  }

  /** A free leaf is a node of the snapshot that no region owns. */
  lemma FreeLeavesUnowned(nodes: seq<Node>, edges: seq<Edge>, regions: seq<Region>, owner: map<string, string>, x: string)
    requires GraphElements.Fits(nodes, regions, owner)
    ensures (exists d :: d in GraphElements.Elements(nodes, edges, regions, owner) && d.NodeElement? && d.parent.None? && d.id == x)
            <==> x in NodeModels(nodes) && x !in owner
  {
    var models, byId := NodeModels(nodes), GraphElements.RegionsById(regions);
    var elements := GraphElements.Elements(nodes, edges, regions, owner);
    GraphElements.RegionsDrawn(models, regions);
    GraphElements.NodesDrawn(byId, owner, nodes);
    GraphElements.EdgeElementsFrom(models, byId, owner, edges);
    GraphElements.ModelsAreNodes(nodes, x);
    hide GraphElements.RegionElements, GraphElements.NodeElements, GraphElements.EdgeElements, NodeModels,
      GraphElements.RegionsById, GraphElements.Skipped;
    if d :| d in elements && d.NodeElement? && d.parent.None? && d.id == x {
      assert d in GraphElements.NodeElements(byId, owner, nodes);
      var n :| n in nodes && d == GraphElements.NodeElementOf(owner, n);
    }
    if x in models && x !in owner {
      var n :| n in nodes && n.id == x;
      assert GraphElements.NodeElementOf(owner, n) in elements;
    }
  }

  /** An id some region hands to `place`. */
  predicate RegionLeaf(regions: seq<Region>, x: string)
  {
    exists r :: r in regions && (if r.collapsed then x == r.id else InRegion(x, r))
  }

  lemma GroupedExactly(regions: seq<Region>, leaves: seq<string>, x: string)
    ensures (exists k :: 0 <= k < |Groups(regions, leaves)| && x in Groups(regions, leaves)[k].ids)
            <==> RegionLeaf(regions, x) || x in leaves
  {
    var gs := Groups(regions, leaves);
    hide InRegion, GroupOf, RegionGroups, LeafGroups;
    if k :| 0 <= k < |gs| && x in gs[k].ids {
      if k < |regions| {
        RegionIds(regions[k], x);
        assert regions[k] in regions;
      }
    }
    if r :| r in regions && (if r.collapsed then x == r.id else InRegion(x, r)) {
      var k :| 0 <= k < |regions| && regions[k] == r;
      RegionIds(r, x);
      assert x in gs[k].ids;
    }
    if x in leaves {
      var k :| 0 <= k < |leaves| && leaves[k] == x;
      assert gs[|regions| + k] == Group([leaves[k]], false);
    }
  }

  /** The ids laid out are exactly those of the drawn leaves. */
  lemma LeavesAreGrouped(nodes: seq<Node>, edges: seq<Edge>, regions: seq<Region>, owner: map<string, string>,
                         leaves: seq<string>, x: string)
    requires GraphElements.Fits(nodes, regions, owner)
    requires x in leaves <==> x in NodeModels(nodes) && x !in owner
    ensures (exists k :: 0 <= k < |Groups(regions, leaves)| && x in Groups(regions, leaves)[k].ids)
            <==> exists d :: d in GraphElements.Elements(nodes, edges, regions, owner) && IsLeaf(d) && d.id == x
  {
    hide GraphElements.Elements, NodeModels, GraphElements.Fits, IsLeaf, Groups, RegionLeaf;
    LeafDrawn(nodes, edges, regions, owner, x);
    GroupedExactly(regions, leaves, x);
  }

  /** What is drawn as a leaf: collapsed regions, nodes of open regions, nodes of none. */
  lemma LeafDrawn(nodes: seq<Node>, edges: seq<Edge>, regions: seq<Region>, owner: map<string, string>, x: string)
    requires GraphElements.Fits(nodes, regions, owner)
    ensures (exists d :: d in GraphElements.Elements(nodes, edges, regions, owner) && IsLeaf(d) && d.id == x)
            <==> RegionLeaf(regions, x) || (x in NodeModels(nodes) && x !in owner)
  {
    var models, byId := NodeModels(nodes), GraphElements.RegionsById(regions);
    var elements := GraphElements.Elements(nodes, edges, regions, owner);
    GraphElements.RegionsDrawn(models, regions);
    GraphElements.NodesDrawn(byId, owner, nodes);
    GraphElements.EdgeElementsFrom(models, byId, owner, edges);
    GraphElements.ModelsAreNodes(nodes, x);
    GraphElements.HiddenExact(nodes, regions, owner, x);
    hide GraphElements.RegionElements, GraphElements.NodeElements, GraphElements.EdgeElements, NodeModels,
      GraphElements.RegionsById, GraphElements.Skipped, GraphElements.Hidden, InRegion;
    var boxes := GraphElements.RegionElements(models, regions);
    if d :| d in elements && IsLeaf(d) && d.id == x {
      if d.RegionElement? {
        assert d in boxes;
        var i :| 0 <= i < |boxes| && boxes[i] == d;
        assert regions[i] in regions && regions[i].collapsed && regions[i].id == x;
      } else {
        assert d in GraphElements.NodeElements(byId, owner, nodes);
        var n :| n in nodes && !GraphElements.Hidden(byId, owner, n.id) && d == GraphElements.NodeElementOf(owner, n);
        assert n.id == x;
        if x in owner {
          ShownInOpen(nodes, regions, owner, x);
        }
      }
    }
    hide GraphElements.Fits;
    if r :| r in regions && r.collapsed && x == r.id {
      var i :| 0 <= i < |regions| && regions[i] == r;
      assert boxes[i].collapsed && boxes[i] in elements;
    }
    if x in models && !GraphElements.Hidden(byId, owner, x) {
      var n :| n in nodes && n.id == x;
      assert GraphElements.NodeElementOf(owner, n) in elements;
    }
    if r :| r in regions && !r.collapsed && InRegion(x, r) {
      OpenNotHidden(nodes, regions, owner, r, x);
    }
  }

  lemma ShownInOpen(nodes: seq<Node>, regions: seq<Region>, owner: map<string, string>, x: string)
    requires GraphElements.Fits(nodes, regions, owner) && x in owner
    requires !GraphElements.Hidden(GraphElements.RegionsById(regions), owner, x)
    ensures RegionLeaf(regions, x)
  {
    GraphElements.HiddenExact(nodes, regions, owner, x);
    hide InRegion, NodeModels;
    var r :| r in regions && InRegion(x, r);
    assert !GraphElements.InCollapsed(regions, r, x);
  }

  lemma OpenNotHidden(nodes: seq<Node>, regions: seq<Region>, owner: map<string, string>, r: Region, x: string)
    requires GraphElements.Fits(nodes, regions, owner) && r in regions && !r.collapsed && InRegion(x, r)
    ensures x in NodeModels(nodes) && !GraphElements.Hidden(GraphElements.RegionsById(regions), owner, x)
  {
    GraphElements.RegionsByIdExact(regions);
  }

  /**
   The layout of a drawing: every drawn leaf has exactly one position, nothing else has one, and
   any two leaves are far enough apart.
   */
  lemma DrawingLaidOut(nodes: seq<Node>, edges: seq<Edge>, regions: seq<Region>, owner: map<string, string>)
    requires GraphElements.Fits(nodes, regions, owner)
    requires forall i, j :: 0 <= i < j < |nodes| ==> nodes[i].id != nodes[j].id
    ensures var elements := GraphElements.Elements(nodes, edges, regions, owner);
            var leaves := FreeLeaves(elements);
            var positions := Positions(Columns(regions, leaves), Groups(regions, leaves));
            && (forall x :: x in positions <==> exists d :: d in elements && IsLeaf(d) && d.id == x)
            && (forall x, y :: x in positions && y in positions && x != y ==> Separated(positions[x], positions[y]))
  {
    var elements := GraphElements.Elements(nodes, edges, regions, owner);
    var leaves := FreeLeaves(elements);
    var columns, groups := Columns(regions, leaves), Groups(regions, leaves);
    NodeElementsOnce(nodes, edges, regions, owner);
    FreeLeavesExact(elements);
    forall x
      ensures x in leaves <==> x in NodeModels(nodes) && x !in owner
    {
      FreeLeavesUnowned(nodes, edges, regions, owner, x);
    }
    DistinctGroups(nodes, regions, owner, leaves);
    PositionsExact(columns, groups);
    var positions := Positions(columns, groups);
    hide GraphElements.Elements, FreeLeaves, Columns, Groups, NodeModels, GraphElements.Fits, IsLeaf, Positions,
      AllDistinct, SlotOf, NoDup;
    forall x
      ensures x in positions <==> exists d :: d in elements && IsLeaf(d) && d.id == x
    {
      LeavesAreGrouped(nodes, edges, regions, owner, leaves, x);
    }
    forall x, y | x in positions && y in positions && x != y
      ensures Separated(positions[x], positions[y])
    {
      PositionsSeparated(columns, groups, x, y);
    }
  }
}
