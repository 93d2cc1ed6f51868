/**
 * Cluster ids of the self-organising map: the best-matching unit of a region
 * is a cell (row, col) of a square G x G grid, and its cluster id is
 * row * G + col + 1. The map itself (training, best-matching-unit search) is
 * not modelled; the cell is an input.
 */
module ClusterId {

  /** The side of the grid the program trains (a 5 x 5 map). */
  const SomGridSize: nat := 5

  /** A grid cell: the coordinates of a best-matching unit. */
  datatype Cell = Cell(row: nat, col: nat)

  predicate InGrid(g: nat, c: Cell) {
    c.row < g && c.col < g
  }

  /** The 1-based cluster id of a cell. */
  function Encode(g: nat, c: Cell): (id: nat)
    requires InGrid(g, c)
    ensures 1 <= id <= g * g
  {
    RowMajorBound(g, c.row, c.col);
    c.row * g + c.col + 1
  }

  /** The cell a cluster id stands for. */
  function Decode(g: nat, id: nat): (c: Cell)
    requires 1 <= id <= g * g
    ensures InGrid(g, c)
  {
    QuotientBound(g, id - 1);
    Cell((id - 1) / g, (id - 1) % g)
  }

  /** The cluster ids of a sequence of best-matching units, position by position. */
  function AssignClusters(g: nat, bmus: seq<Cell>): (ids: seq<nat>)
    requires forall i :: 0 <= i < |bmus| ==> InGrid(g, bmus[i])
    ensures |ids| == |bmus|
    ensures forall i :: 0 <= i < |ids| ==> 1 <= ids[i] <= g * g && Decode(g, ids[i]) == bmus[i]
  {
    if |bmus| == 0 then []
    else
      DecodeEncode(g, bmus[0]);
      [Encode(g, bmus[0])] + AssignClusters(g, bmus[1..])
  }

  // ---------------------------------------------------------------------------
  // Arithmetic facts
  // ---------------------------------------------------------------------------

  lemma RowMajorBound(g: nat, row: nat, col: nat)
    requires row < g && col < g
    ensures row * g + col < g * g
  {
    assert row * g <= (g - 1) * g by {
      MulMonotone(row, g - 1, g);
    }
  }

  lemma MulMonotone(a: nat, b: nat, c: nat)
    requires a <= b
    ensures a * c <= b * c
  {
  }

  lemma QuotientBound(g: nat, n: nat)
    requires n < g * g
    ensures g > 0 && n / g < g && n % g < g
  {
    if n / g >= g {
      MulMonotone(g, n / g, g);
    }
  }

  /** Division by `g` undoes `q * g + r` for a remainder `r < g`. */
  lemma DivModOfRowMajor(g: nat, q: nat, r: nat)
    requires r < g
    ensures (q * g + r) / g == q && (q * g + r) % g == r
  {
    var n := q * g + r;
    var q', r' := n / g, n % g;
    assert q' * g + r' == q * g + r;
    if q' < q {
      MulMonotone(q' + 1, q, g);
    } else if q' > q {
      MulMonotone(q + 1, q', g);
    }
  }

  // ---------------------------------------------------------------------------
  // The encoding is a bijection between the grid and [1, g * g]
  // ---------------------------------------------------------------------------

  /** Decoding the id of a cell gives the cell back. */
  lemma DecodeEncode(g: nat, c: Cell)
    requires InGrid(g, c)
    ensures Decode(g, Encode(g, c)) == c
  {
    DivModOfRowMajor(g, c.row, c.col);
  }

  /** Encoding the cell of an id gives the id back. */
  lemma EncodeDecode(g: nat, id: nat)
    requires 1 <= id <= g * g
    ensures Encode(g, Decode(g, id)) == id
  {
  }

  /** Different cells have different ids. */
  lemma EncodeInjective(g: nat, a: Cell, b: Cell)
    requires InGrid(g, a) && InGrid(g, b)
    requires Encode(g, a) == Encode(g, b)
    ensures a == b
  {
    DecodeEncode(g, a);
    DecodeEncode(g, b);
  }

  /** Every id in [1, g * g] is the id of exactly one cell of the grid. */
  lemma EncodeOnto(g: nat, id: nat)
    requires 1 <= id <= g * g
    ensures exists c :: InGrid(g, c) && Encode(g, c) == id
    ensures forall c :: InGrid(g, c) && Encode(g, c) == id ==> c == Decode(g, id)
  {
    EncodeDecode(g, id);
    forall c | InGrid(g, c) && Encode(g, c) == id ensures c == Decode(g, id) {
      DecodeEncode(g, c);
    }
  }

  /** On the program's 5 x 5 map the ids are 1 to 25. */
  lemma DefaultGridIds(c: Cell)
    requires InGrid(SomGridSize, c)
    ensures 1 <= Encode(SomGridSize, c) <= 25
    ensures Encode(SomGridSize, c) == 5 * c.row + c.col + 1
  {
  }
}
