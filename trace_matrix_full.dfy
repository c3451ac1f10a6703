/**
 * The full trace matrix of a pairwise alignment (`alignment_trace_matrix_full`):
 * a column-major buffer of `num_rows * num_cols` trace cells, one cached
 * "left" column of `num_rows` cells and a single cached "up" cell. Columns are
 * handed out one at a time; each entry pairs a matrix coordinate with a proxy
 * naming the cells it reads and writes. In coordinate-only mode nothing is
 * allocated and the entries carry coordinates alone.
 */
module TraceMatrixFull {
  import opened Wrappers

  /** A matrix coordinate: column index first, then row index. */
  datatype Coordinate = Coordinate(col: nat, row: nat)

  /** A cell the proxy refers to: a cell of `data`, of `cache_left`, or `cache_up`. */
  datatype CellRef = Data(index: nat) | CacheLeft(index: nat) | CacheUp

  /** The four references a proxy is built from, in the order they are passed. */
  datatype Proxy = Proxy(current: CellRef, diagonal: CellRef, left: CellRef, up: CellRef)

  /** One element of a column range: the coordinate and, in full mode, the proxy. */
  datatype ColumnEntry = ColumnEntry(coordinate: Coordinate, proxy: Option<Proxy>)

  /** Moving one column further on skips a whole column of cells. */
  lemma ColumnStride(rows: nat, j: nat, j': nat)
    requires j < j'
    ensures rows * j + rows <= rows * j'
  {
    var k := j' - j;
    assert rows * j' == rows * j + rows * k;
    assert rows * k == rows + rows * (k - 1);
  }

  /** Every cell position of a `rows` x `cols` column-major buffer lies inside it. */
  lemma LayoutIndexInBounds(rows: nat, cols: nat, j: nat, i: nat)
    requires j < cols && i < rows
    ensures rows * j + i < rows * cols
  {
    ColumnStride(rows, j, cols);
  }

  /** Different (column, row) positions occupy different cells of the buffer. */
  lemma LayoutInjective(rows: nat, j: nat, i: nat, j': nat, i': nat)
    requires i < rows && i' < rows
    requires rows * j + i == rows * j' + i'
    ensures j == j' && i == i'
  {
    if j < j' {
      ColumnStride(rows, j, j');
    } else if j' < j {
      ColumnStride(rows, j', j);
    }
  }

  /** Every cell of the buffer belongs to column `d / rows`, at row `d % rows`. */
  lemma LayoutSurjective(rows: nat, cols: nat, d: nat)
    requires d < rows * cols
    ensures rows > 0
    ensures d / rows < cols && d % rows < rows
    ensures rows * (d / rows) + d % rows == d
  {
    if rows == 0 {
      assert false;
    }
    var q, r := d / rows, d % rows;
    assert d == rows * q + r;
    if q >= cols {
      if q > cols {
        ColumnStride(rows, cols, q);
      }
      assert false;
    }
  }

  class TraceMatrix<Trace> {
    const coordinateOnly: bool
    /** `num_cols`: one more than the length of the first sequence. */
    const numCols: nat
    /** `num_rows`: one more than the length of the second sequence. */
    const numRows: nat
    var data: seq<Trace>
    var cacheLeft: seq<Trace>

    ghost predicate Valid()
      reads this
    {
      if coordinateOnly then data == [] && cacheLeft == []
      else |data| == numRows * numCols && |cacheLeft| == numRows
    }

    /**
     * The constructor: the dimensions come from the two sequence lengths; in
     * full mode `data` is sized to hold every cell, filled with the default
     * trace, and `cache_left` holds one column filled with `initialValue`.
     */
    constructor (firstLength: nat, secondLength: nat, initialValue: Trace, defaultTrace: Trace, coordinateOnly: bool)
      ensures Valid()
      ensures this.coordinateOnly == coordinateOnly
      ensures numCols == firstLength + 1 && numRows == secondLength + 1
      ensures !coordinateOnly ==> data == seq(numRows * numCols, _ => defaultTrace)
      ensures !coordinateOnly ==> cacheLeft == seq(numRows, _ => initialValue)
    {
      this.coordinateOnly := coordinateOnly;
      numCols := firstLength + 1;
      numRows := secondLength + 1;
      if coordinateOnly {
        data := [];
        cacheLeft := [];
      } else {
        data := seq((secondLength + 1) * (firstLength + 1), _ => defaultTrace);
        cacheLeft := seq(secondLength + 1, _ => initialValue);
      }
    }

    /**
     * `initialise_column` followed by `make_proxy` on each element: column `j`
     * yields the coordinates `(j, 0) .. (j, num_rows - 1)`; in full mode the
     * entry in row `i` pairs cell `num_rows * j + i` of `data` with entry `i`
     * of `cache_left` (passed twice) and `cache_up`.
     */
    function Column(j: nat): (col: seq<ColumnEntry>)
      requires j < numCols
      ensures |col| == numRows
      ensures forall i :: 0 <= i < numRows ==> col[i].coordinate == Coordinate(j, i)
      ensures forall i :: 0 <= i < numRows ==>
                (col[i].proxy.None? <==> coordinateOnly)
      ensures !coordinateOnly ==> forall i :: 0 <= i < numRows ==>
                col[i].proxy == Some(Proxy(Data(numRows * j + i), CacheLeft(i), CacheLeft(i), CacheUp))
    {
      seq(numRows, i requires 0 <= i < numRows =>
        ColumnEntry(Coordinate(j, i),
                    if coordinateOnly then None
                    else Some(Proxy(Data(numRows * j + i), CacheLeft(i), CacheLeft(i), CacheUp))))
    }

    /** Every reference a column hands out lies inside the allocated buffers. */
    lemma ColumnInBounds(j: nat, i: nat)
      requires Valid() && !coordinateOnly
      requires j < numCols && i < numRows
      ensures Column(j)[i].proxy.Some?
      ensures Column(j)[i].proxy.value.current.index < |data|
      ensures Column(j)[i].proxy.value.left.index < |cacheLeft|
    {
      LayoutIndexInBounds(numRows, numCols, j, i);
    }

    /**
     * Column-major order: the columns together visit every cell of `data`
     * exactly once, cell `d` in column `d / num_rows` at row `d % num_rows`.
     */
    lemma ColumnsPartitionData(d: nat)
      requires Valid() && !coordinateOnly
      requires d < |data|
      ensures d / numRows < numCols && d % numRows < numRows
      ensures Column(d / numRows)[d % numRows].proxy == Some(Proxy(Data(d), CacheLeft(d % numRows), CacheLeft(d % numRows), CacheUp))
      ensures forall j: nat, i: nat {:trigger Column(j)[i]} :: j < numCols && i < numRows && Column(j)[i].proxy.value.current == Data(d)
                ==> j == d / numRows && i == d % numRows
    {
      LayoutSurjective(numRows, numCols, d);
      forall j: nat, i: nat | j < numCols && i < numRows && Column(j)[i].proxy.value.current == Data(d)
        ensures j == d / numRows && i == d % numRows
      {
        LayoutInjective(numRows, j, i, d / numRows, d % numRows);
      }
    }
  }
}
