/**
 * The fixed catalogue of the seven tetromino schemes (src/constants.jsx).
 * Row i, column k of a scheme says whether the block has a cell at (k, i).
 */
module Schemes {
  import opened Grids

  /** The seven schemes in catalogue order: I, J, L, O, S, Z, T. */
  const Catalog: seq<Mask> := [Scheme(0), Scheme(1), Scheme(2), Scheme(3), Scheme(4), Scheme(5), Scheme(6)]

  /** Entry z of the catalogue (the last one for an index past the end). */
  function Scheme(z: int): Mask
  {
    if z <= 0 then
      [[false, false, false, false],
       [true,  true,  true,  true ],
       [false, false, false, false],
       [false, false, false, false]]
    else if z == 1 then
      [[true,  false, false],
       [true,  true,  true ],
       [false, false, false]]
    else if z == 2 then
      [[false, false, true ],
       [true,  true,  true ],
       [false, false, false]]
    else if z == 3 then
      [[true, true],
       [true, true]]
    else if z == 4 then
      [[false, true,  true ],
       [true,  true,  false],
       [false, false, false]]
    else if z == 5 then
      [[true,  true,  false],
       [false, true,  true ],
       [false, false, false]]
    else
      [[false, true,  false],
       [true,  true,  true ]]
  }

  /** The mask is one of the catalogue's schemes. */
  predicate InCatalog(m: Mask)
  {
    exists z :: 0 <= z < |Catalog| && Catalog[z] == m
  }

  /** All rows of the scheme have the length of the first. */
  predicate Boxed(m: Mask)
  {
    forall i :: 0 <= i < |m| ==> |m[i]| == |m[0]|
  }

  /** The number of cells a scheme switches on. */
  function CellCount(m: Mask): nat
  {
    |TrueSlots(m)|
  }

  /** Each scheme switches on exactly four cells. */
  lemma SchemeCount(z: int)
    requires 0 <= z < |Catalog|
    ensures CellCount(Catalog[z]) == 4
  {
    if z == 0 {
      assert Catalog[0] == Scheme(0) && TrueSlots(Scheme(0)) == [(0, 1), (1, 1), (2, 1), (3, 1)];
    } else if z == 1 {
      assert Catalog[1] == Scheme(1) && TrueSlots(Scheme(1)) == [(0, 0), (0, 1), (1, 1), (2, 1)];
    } else if z == 2 {
      assert Catalog[2] == Scheme(2) && TrueSlots(Scheme(2)) == [(2, 0), (0, 1), (1, 1), (2, 1)];
    } else if z == 3 {
      assert Catalog[3] == Scheme(3) && TrueSlots(Scheme(3)) == [(0, 0), (1, 0), (0, 1), (1, 1)];
    } else if z == 4 {
      assert Catalog[4] == Scheme(4) && TrueSlots(Scheme(4)) == [(1, 0), (2, 0), (0, 1), (1, 1)];
    } else if z == 5 {
      assert Catalog[5] == Scheme(5) && TrueSlots(Scheme(5)) == [(0, 0), (1, 0), (1, 1), (2, 1)];
    } else {
      assert Catalog[6] == Scheme(6) && TrueSlots(Scheme(6)) == [(1, 0), (0, 1), (1, 1), (2, 1)];
    }
  }

  /** Every scheme is a tetromino. */
  lemma CatalogCounts()
    ensures forall z :: 0 <= z < |Catalog| ==> CellCount(Catalog[z]) == 4
  {
    forall z | 0 <= z < |Catalog|
      ensures CellCount(Catalog[z]) == 4
    {
      SchemeCount(z);
    }
  }

  /** Every scheme is a box of at most 4 x 4 whose rows all have one length. */
  lemma CatalogBoxes()
    ensures |Catalog| == 7
    ensures forall z :: 0 <= z < |Catalog| ==> 0 < |Catalog[z]| <= 4 && |Catalog[z][0]| <= 4
    ensures forall z :: 0 <= z < |Catalog| ==> Boxed(Catalog[z])
  {
  }

  /** No two schemes are equal. */
  lemma CatalogDistinct()
    ensures forall z, w :: 0 <= z < w < |Catalog| ==> Catalog[z] != Catalog[w]
  {
    forall z, w | 0 <= z < w < |Catalog|
      ensures Catalog[z] != Catalog[w]
    {
      assert Catalog[z][0] != Catalog[w][0] || Catalog[z][1] != Catalog[w][1];
    }
  }
}
