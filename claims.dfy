/**
 * Fabric claims (day 3): a claim is an axis-aligned block of square-inch
 * cells on a 1000 x 1000 fabric. The solver counts the cells claimed at
 * least twice, using a flat occupancy grid, and looks for the claim that
 * overlaps no claim of a different id, using a closed-form overlap test.
 */
module Claims {
  import opened Options

  /** A claim `#id @ xpos,ypos: xdim x ydim`; it covers the cells
      [xpos, xpos + xdim - 1] x [ypos, ypos + ydim - 1]. */
  datatype Rect = Rect(id: nat, xpos: nat, ypos: nat, xdim: nat, ydim: nat)

  /** The occupancy grid is a fixed Side x Side square stored row by row. */
  const Side: nat := 1000
  const GridSize: nat := 1000000

  /** Cell (x, y) lies inside claim r. */
  predicate Covers(r: Rect, x: int, y: int)
  {
    r.xpos <= x < r.xpos + r.xdim && r.ypos <= y < r.ypos + r.ydim
  }

  /** The claim has at least one cell. */
  predicate NonEmpty(r: Rect)
  {
    r.xdim >= 1 && r.ydim >= 1
  }

  /** The inclusive far corner `pos + dim - 1` does not underflow an unsigned word. */
  predicate CornerDefined(r: Rect)
  {
    r.xpos + r.xdim >= 1 && r.ypos + r.ydim >= 1
  }

  /** Some cell lies in both claims. */
  ghost predicate ShareCell(a: Rect, b: Rect)
  {
    exists x: int, y: int :: Covers(a, x, y) && Covers(b, x, y)
  }

  // ---------------------------------------------------------------------
  // check_overlap
  // ---------------------------------------------------------------------

  /** Separating-axis test on the inclusive corners of the two claims. On
      claims with at least one cell it answers exactly whether the claims
      share a cell. */
  function CheckOverlap(a: Rect, b: Rect): (r: bool)
    requires CornerDefined(a) && CornerDefined(b)
    ensures NonEmpty(a) && NonEmpty(b) ==> (r <==> ShareCell(a, b))
  {
    var axTl := a.xpos;
    var axBr := a.xpos + a.xdim - 1;
    var bxTl := b.xpos;
    var bxBr := b.xpos + b.xdim - 1;
    var ayTl := a.ypos;
    var ayBr := a.ypos + a.ydim - 1;
    var byTl := b.ypos;
    var byBr := b.ypos + b.ydim - 1;
    var overlap := !(((axTl > bxBr) || (bxTl > axBr)) || ((ayTl > byBr) || (byTl > ayBr)));
    // the corner nearest the origin of the common block is a shared cell
    var x := if axTl < bxTl then bxTl else axTl;
    var y := if ayTl < byTl then byTl else ayTl;
    assert NonEmpty(a) && NonEmpty(b) && overlap ==> Covers(a, x, y) && Covers(b, x, y);
    overlap
  }

  /** The test does not depend on the order of its arguments. */
  lemma OverlapSymmetric(a: Rect, b: Rect)
    requires CornerDefined(a) && CornerDefined(b)
    ensures CheckOverlap(a, b) == CheckOverlap(b, a)
  {
  }

  /** Claims that only touch along an edge do not overlap. */
  lemma AbuttingClaimsDoNotOverlap(a: Rect, b: Rect)
    requires CornerDefined(a) && CornerDefined(b)
    requires a.xpos + a.xdim == b.xpos || a.ypos + a.ydim == b.ypos
    ensures !CheckOverlap(a, b)
  {
  }

  /** Without a cell the test loses its geometric meaning: a zero-sized
      claim away from the origin still "overlaps" a claim around it. */
  lemma ZeroSizedClaimOverlaps()
    ensures !ShareCell(Rect(1, 5, 5, 0, 0), Rect(2, 0, 0, 10, 10))
    ensures CheckOverlap(Rect(1, 5, 5, 0, 0), Rect(2, 0, 0, 10, 10))
  {
  }

  /** The documented overlap checks, among them claims 570 and 845. */
  lemma OverlapExamples()
    ensures CheckOverlap(Rect(1, 1, 3, 4, 4), Rect(2, 3, 1, 4, 4))
    ensures CheckOverlap(Rect(2, 3, 1, 4, 4), Rect(1, 1, 3, 4, 4))
    ensures !CheckOverlap(Rect(1, 1, 3, 4, 4), Rect(3, 5, 5, 2, 2))
    ensures CheckOverlap(Rect(570, 150, 14, 23, 22), Rect(845, 157, 13, 14, 24))
  {
  }

  // ---------------------------------------------------------------------
  // find_double_occupancy
  // ---------------------------------------------------------------------

  /** The claim lies inside the fixed grid. */
  predicate FitsGrid(r: Rect)
  {
    r.xpos + r.xdim <= Side && r.ypos + r.ydim <= Side
  }

  /** Flat row-major index of cell (x, y); distinct cells get distinct slots. */
  function Idx(x: nat, y: nat): (i: nat)
    requires x < Side && y < Side
    ensures i < GridSize
    ensures i % Side == x && i / Side == y
  {
    y * Side + x
  }

  /** Number of claims that cover cell (x, y). */
  function Coverage(claims: seq<Rect>, x: int, y: int): (n: nat)
    ensures n <= |claims|
  {
    if claims == [] then 0
    else Coverage(claims[..|claims| - 1], x, y) + (if Covers(claims[|claims| - 1], x, y) then 1 else 0)
  }

  /** Grid slots, in row-major order, whose cell is covered by two or more claims. */
  ghost function DoubledCells(claims: seq<Rect>): set<nat>
  {
    set i: nat | i < GridSize && Coverage(claims, i % Side, i / Side) >= 2
  }

  /** Adds one claim to the grid: every slot of a cell the claim covers
      goes up by one, every other slot is unchanged. */
  method MarkClaim(grid: array<nat>, claim: Rect)
    requires grid.Length == GridSize && FitsGrid(claim)
    modifies grid
    ensures forall x: nat, y: nat :: x < Side && y < Side ==>
      grid[Idx(x, y)] == old(grid[Idx(x, y)]) + (if Covers(claim, x, y) then 1 else 0)
  {
    for x := claim.xpos to claim.xpos + claim.xdim
      invariant forall x': nat, y': nat :: x' < Side && y' < Side ==>
        grid[Idx(x', y')] == old(grid[Idx(x', y')]) + (if Covers(claim, x', y') && x' < x then 1 else 0)
    {
      for y := claim.ypos to claim.ypos + claim.ydim
        invariant forall x': nat, y': nat :: x' < Side && y' < Side ==>
          grid[Idx(x', y')] == old(grid[Idx(x', y')])
            + (if Covers(claim, x', y') && (x' < x || (x' == x && y' < y)) then 1 else 0)
      {
        grid[Idx(x, y)] := grid[Idx(x, y)] + 1;
      }
    }
  }

  /** Number of grid slots holding more than one claim. */
  method CountOverfull(grid: array<nat>) returns (count: nat)
    ensures count == |set j: nat | j < grid.Length && grid[j] > 1|
  {
    count := 0;
    for i := 0 to grid.Length
      invariant count == |set j: nat | j < i && grid[j] > 1|
    {
      ghost var before := set j: nat | j < i && grid[j] > 1;
      if grid[i] > 1 {
        assert (set j: nat | j < i + 1 && grid[j] > 1) == before + {i};
        count := count + 1;
      } else {
        assert (set j: nat | j < i + 1 && grid[j] > 1) == before;
      }
    }
  }

  /** Marks every claim on a zeroed grid, then counts the slots holding
      more than one claim. */
  method FindDoubleOccupancy(claims: seq<Rect>) returns (count: nat)
    requires forall c :: c in claims ==> FitsGrid(c)
    ensures count == |DoubledCells(claims)|
  {
    var grid := new nat[GridSize](_ => 0);
    for k := 0 to |claims|
      invariant forall x: nat, y: nat :: x < Side && y < Side ==> grid[Idx(x, y)] == Coverage(claims[..k], x, y)
    {
      MarkClaim(grid, claims[k]);
      assert claims[..k + 1][..k] == claims[..k];
    }
    assert claims[..|claims|] == claims;
    count := CountOverfull(grid);
    forall j: nat | j < GridSize
      ensures grid[j] == Coverage(claims, j % Side, j / Side)
    {
      assert Idx(j % Side, j / Side) == j;
    }
    assert (set j: nat | j < GridSize && grid[j] > 1) == DoubledCells(claims);
  }

  /** A cell holds two or more claims exactly when two distinct positions
      of the list both cover it. */
  lemma {:induction false} CoverageAtLeastTwo(claims: seq<Rect>, x: int, y: int)
    ensures Coverage(claims, x, y) >= 2 <==>
      exists i, j :: 0 <= i < j < |claims| && Covers(claims[i], x, y) && Covers(claims[j], x, y)
  {
    if claims != [] {
      var init := claims[..|claims| - 1];
      var last := |claims| - 1;
      CoverageAtLeastTwo(init, x, y);
      CoverageAtLeastOne(init, x, y);
      if Coverage(claims, x, y) >= 2 {
        if Coverage(init, x, y) < 2 {
          var i :| 0 <= i < |init| && Covers(init[i], x, y);
          assert Covers(claims[i], x, y) && Covers(claims[last], x, y);
        } else {
          var i, j :| 0 <= i < j < |init| && Covers(init[i], x, y) && Covers(init[j], x, y);
          assert Covers(claims[i], x, y) && Covers(claims[j], x, y);
        }
      }
      if i, j :| 0 <= i < j < |claims| && Covers(claims[i], x, y) && Covers(claims[j], x, y) {
        if j < last {
          assert Covers(init[i], x, y) && Covers(init[j], x, y);
        } else {
          assert Covers(init[i], x, y);
        }
      }
    }
  }

  /** A cell holds a claim exactly when some position of the list covers it. */
  lemma {:induction false} CoverageAtLeastOne(claims: seq<Rect>, x: int, y: int)
    ensures Coverage(claims, x, y) >= 1 <==> exists i :: 0 <= i < |claims| && Covers(claims[i], x, y)
  {
    if claims != [] {
      var init := claims[..|claims| - 1];
      CoverageAtLeastOne(init, x, y);
      if i :| 0 <= i < |init| && Covers(init[i], x, y) {
        assert Covers(claims[i], x, y);
      }
      if i :| 0 <= i < |claims| && Covers(claims[i], x, y) {
        if i < |init| {
          assert Covers(init[i], x, y);
        }
      }
    }
  }

  /** An empty or one-claim list has no doubly claimed cell. */
  lemma FewClaimsNoDoubles(claims: seq<Rect>)
    requires |claims| <= 1
    ensures DoubledCells(claims) == {}
  {
  }

  /** Two overlapping positions of a list of non-empty claims inside the
      grid leave a doubly claimed cell. */
  lemma OverlapLeavesDoubledCell(claims: seq<Rect>, i: nat, j: nat)
    requires i < j < |claims|
    requires NonEmpty(claims[i]) && NonEmpty(claims[j]) && FitsGrid(claims[i])
    requires CheckOverlap(claims[i], claims[j])
    ensures DoubledCells(claims) != {}
  {
    var x, y :| Covers(claims[i], x, y) && Covers(claims[j], x, y);
    CoverageAtLeastTwo(claims, x, y);
    assert Idx(x, y) in DoubledCells(claims);
  }

  /** The occupancy count agrees with the overlap test: for non-empty claims
      inside the grid, no cell is doubly claimed exactly when no two
      distinct positions of the list overlap. */
  lemma NoDoublesIffNoOverlaps(claims: seq<Rect>)
    requires forall c :: c in claims ==> NonEmpty(c) && CornerDefined(c) && FitsGrid(c)
    ensures DoubledCells(claims) == {} <==>
      forall i, j :: 0 <= i < j < |claims| ==> !CheckOverlap(claims[i], claims[j])
  {
    if DoubledCells(claims) != {} {
      var k :| k in DoubledCells(claims);
      CoverageAtLeastTwo(claims, k % Side, k / Side);
      var i, j :| 0 <= i < j < |claims| && Covers(claims[i], k % Side, k / Side) && Covers(claims[j], k % Side, k / Side);
      assert ShareCell(claims[i], claims[j]);
    } else {
      forall i, j | 0 <= i < j < |claims| && CheckOverlap(claims[i], claims[j])
        ensures false
      {
        OverlapLeavesDoubledCell(claims, i, j);
      }
    }
  }

  /** The three-claim example has four doubly claimed cells, (3,3) to (4,4). */
  lemma DoubleOccupancyExample()
    ensures |DoubledCells([Rect(1, 1, 3, 4, 4), Rect(2, 3, 1, 4, 4), Rect(3, 5, 5, 2, 2)])| == 4
  {
    var claims := [Rect(1, 1, 3, 4, 4), Rect(2, 3, 1, 4, 4), Rect(3, 5, 5, 2, 2)];
    forall x, y
      ensures Coverage(claims, x, y) >= 2 <==> 3 <= x <= 4 && 3 <= y <= 4
    {
      assert claims[..2] == [claims[0], claims[1]];
      assert claims[..2][..1] == [claims[0]];
      assert [claims[0]][..0] == [];
      assert Coverage([claims[0]], x, y) == (if Covers(claims[0], x, y) then 1 else 0);
      assert Coverage(claims[..2], x, y) == Coverage([claims[0]], x, y) + (if Covers(claims[1], x, y) then 1 else 0);
    }
    var cells := {Idx(3, 3), Idx(4, 3), Idx(3, 4), Idx(4, 4)};
    forall i: nat | i < GridSize
      ensures i in DoubledCells(claims) <==> i in cells
    {
      assert Idx(i % Side, i / Side) == i;
    }
    assert DoubledCells(claims) == cells;
  }

  // ---------------------------------------------------------------------
  // find_solo_claim
  // ---------------------------------------------------------------------

  /** Every claim that the search may test against another (one whose id
      differs from some other claim's) has well-defined corners. */
  predicate Comparable(claims: seq<Rect>)
  {
    forall i, j :: 0 <= i < |claims| && 0 <= j < |claims| && claims[i].id != claims[j].id ==>
      CornerDefined(claims[i])
  }

  /** The claim at position i overlaps no claim that carries a different id.
      Claims sharing its id, itself included, are never tested. */
  predicate IsSolo(claims: seq<Rect>, i: nat)
    requires Comparable(claims) && i < |claims|
  {
    forall j :: 0 <= j < |claims| && claims[j].id != claims[i].id ==> !CheckOverlap(claims[i], claims[j])
  }

  /** The id of the last solo claim among the first n positions, if any. */
  function SoloIdBelow(claims: seq<Rect>, n: nat): Option<nat>
    requires Comparable(claims) && n <= |claims|
  {
    if n == 0 then None
    else if IsSolo(claims, n - 1) then Some(claims[n - 1].id)
    else SoloIdBelow(claims, n - 1)
  }

  /** The answer is absent exactly when no claim is solo, and otherwise it
      is the id of a solo claim after which no claim is solo. */
  lemma {:induction false} SoloIdBelowIsLastSolo(claims: seq<Rect>, n: nat)
    requires Comparable(claims) && n <= |claims|
    ensures SoloIdBelow(claims, n).None? <==> forall k :: 0 <= k < n ==> !IsSolo(claims, k)
    ensures SoloIdBelow(claims, n).Some? ==>
              exists k :: 0 <= k < n && IsSolo(claims, k) && claims[k].id == SoloIdBelow(claims, n).value
                          && (forall k' :: k < k' < n ==> !IsSolo(claims, k'))
  {
    if n > 0 {
      SoloIdBelowIsLastSolo(claims, n - 1);
      if IsSolo(claims, n - 1) {
        assert IsSolo(claims, n - 1) && claims[n - 1].id == SoloIdBelow(claims, n).value;
      } else if SoloIdBelow(claims, n).Some? {
        var k :| 0 <= k < n - 1 && IsSolo(claims, k) && claims[k].id == SoloIdBelow(claims, n - 1).value
                 && (forall k' :: k < k' < n - 1 ==> !IsSolo(claims, k'));
        assert forall k' :: k < k' < n ==> !IsSolo(claims, k');
      }
    }
  }

  /** Tests every claim against every claim of a different id; each claim
      that survives overwrites the answer, so the last solo claim wins. */
  method FindSoloClaim(claims: seq<Rect>) returns (solo: Option<nat>)
    requires Comparable(claims)
    ensures solo == SoloIdBelow(claims, |claims|)
  {
    solo := None;
    label Outer:
    for i := 0 to |claims|
      invariant solo == SoloIdBelow(claims, i)
    {
      var a := claims[i];
      for j := 0 to |claims|
        invariant forall k :: 0 <= k < j && claims[k].id != a.id ==> !CheckOverlap(a, claims[k])
      {
        var b := claims[j];
        if a.id == b.id {
          continue;
        }
        if CheckOverlap(a, b) {
          assert !IsSolo(claims, i);
          continue Outer;
        }
      }
      assert IsSolo(claims, i);
      solo := Some(a.id);
    }
  }

  /** Without claims there is no solo claim. */
  lemma SoloClaimEmpty()
    ensures SoloIdBelow([], 0) == None
  {
  }

  /** A single claim has nothing to overlap. */
  lemma SoloClaimSingle(c: Rect)
    ensures SoloIdBelow([c], 1) == Some(c.id)
  {
    assert IsSolo([c], 0);
  }

  /** In the three-claim example only claim 3 is solo. */
  lemma SoloClaimExample()
    ensures SoloIdBelow([Rect(1, 1, 3, 4, 4), Rect(2, 3, 1, 4, 4), Rect(3, 5, 5, 2, 2)], 3) == Some(3)
  {
    var claims := [Rect(1, 1, 3, 4, 4), Rect(2, 3, 1, 4, 4), Rect(3, 5, 5, 2, 2)];
    assert IsSolo(claims, 2);
  }

  /** Pairs are skipped by id, not by position: two overlapping claims that
      share an id are both solo, and the later one is reported. */
  lemma SharedIdHidesOverlap()
    ensures CheckOverlap(Rect(7, 0, 0, 2, 2), Rect(7, 1, 1, 2, 2))
    ensures SoloIdBelow([Rect(7, 0, 0, 2, 2), Rect(7, 1, 1, 2, 2)], 2) == Some(7)
  {
    assert IsSolo([Rect(7, 0, 0, 2, 2), Rect(7, 1, 1, 2, 2)], 1);
  }

  /** When several claims are solo the answer is the last of them, not the first. */
  lemma LastSoloClaimWins()
    ensures SoloIdBelow([Rect(1, 0, 0, 1, 1), Rect(2, 5, 5, 1, 1)], 2) == Some(2)
  {
    assert IsSolo([Rect(1, 0, 0, 1, 1), Rect(2, 5, 5, 1, 1)], 1);
  }
}
