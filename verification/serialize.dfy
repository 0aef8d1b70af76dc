/** The public-input encoder of the puzzle grid, and its inverse.

    `SerializeInput` follows the source loop for loop: rows in order, cells
    in order within a row, and for each cell the bits `(value >> i) & 1` for
    i = 0 .. 7. `Serialize` is the same encoding as a recursive definition,
    and `Deserialize` is the reference decoder that the round-trip and
    injectivity properties are stated against. */
module PublicInput {
  import opened Bits
  import opened Grid

  datatype Option<T> = None | Some(value: T)

  /** The blocks of a sequence of cells, in order. */
  function EncodeCells(cells: seq<Byte>): (enc: seq<int>)
    ensures |enc| == CellWidth * |cells|
    ensures IsBinary(enc)
  {
    if |cells| == 0 then []
    else EncodeCells(cells[..|cells| - 1]) + EncodeCell(cells[|cells| - 1])
  }

  /** The public input of a grid: the encoding of every row, top to bottom. */
  function Serialize(mat: seq<seq<Byte>>): (enc: seq<int>)
    ensures IsBinary(enc)
  {
    if |mat| == 0 then []
    else Serialize(mat[..|mat| - 1]) + EncodeCells(mat[|mat| - 1])
  }

  /** Where the block of cell (r, c) of an n x n grid starts. */
  function BlockStart(r: nat, c: nat, n: nat): nat
  {
    CellWidth * CellIndex(r, c, n)
  }

  /** Where the encoding of row r of an n x n grid starts. */
  function RowStart(r: nat, n: nat): nat
  {
    CellWidth * (r * n)
  }

  /** The cells encoded by a sequence of whole blocks. */
  function DecodeCells(enc: seq<int>): (cells: seq<Byte>)
    requires |enc| % CellWidth == 0 && IsBinary(enc)
    ensures CellWidth * |cells| == |enc|
  {
    if |enc| == 0 then []
    else
      var cut := |enc| - CellWidth;
      DecodeCells(enc[..cut]) + [DecodeCell(enc[cut..])]
  }

  /** The n x n grid a public input encodes, or None when the input has the
      wrong length or an element other than 0 or 1. */
  function Deserialize(enc: seq<int>, n: nat): (mat: Option<seq<seq<Byte>>>)
    ensures mat.Some? ==> IsSquare(mat.value, n)
  {
    if |enc| != CellWidth * (n * n) || !IsBinary(enc) then None
    else Some(Unflatten(DecodeCells(enc), n, n))
  }

  /** The source's `serialize_input`: rows in order, cells in order within
      a row, one 0 or 1 pushed per bit of every cell. The dimension `n` is
      the const generic `N` and has no run-time role. */
  method SerializeInput(mat: seq<seq<Byte>>, ghost n: nat) returns (enc: seq<int>)
    requires IsSquare(mat, n)
    ensures enc == Serialize(mat)
    ensures |enc| == CellWidth * (n * n)
    ensures IsBinary(enc)
    ensures forall r, c :: 0 <= r < n && 0 <= c < n ==> BlockStart(r, c, n) + CellWidth <= |enc|
    ensures forall r, c, i :: 0 <= r < n && 0 <= c < n && 0 <= i < CellWidth ==>
              enc[BlockStart(r, c, n) + i] == BitAt(mat[r][c], i)
  {
    enc := [];
    for r := 0 to |mat|
      invariant enc == Serialize(mat[..r])
    {
      enc := PushRow(enc, mat[r]);
      assert mat[..r + 1][..r] == mat[..r];
    }
    assert mat[..|mat|] == mat;
    SerializeLength(mat, n, n);
    SerializeBits(mat, n);
  }

  /** The middle loop of `serialize_input`: the cells of one row, in
      order. It appends exactly the row's encoding. */
  method PushRow(enc0: seq<int>, row: seq<Byte>) returns (enc: seq<int>)
    ensures enc == enc0 + EncodeCells(row)
  {
    enc := enc0;
    for c := 0 to |row|
      invariant enc == enc0 + EncodeCells(row[..c])
    {
      enc := PushCell(enc, row[c]);
      assert row[..c + 1][..c] == row[..c];
    }
    assert row[..|row|] == row;
  }

  /** The innermost loop of `serialize_input`: for i = 0 .. 7, push 1 when
      `(value >> i) & 1 == 1` and 0 otherwise. It appends exactly the
      cell's block. */
  method PushCell(enc0: seq<int>, value: Byte) returns (enc: seq<int>)
    ensures enc == enc0 + EncodeCell(value)
  {
    enc := enc0;
    for i := 0 to CellWidth
      invariant enc == enc0 + EncodeCell(value)[..i]
    {
      EncodeBitsAt(value, CellWidth, i);
      assert EncodeCell(value)[..i + 1] == EncodeCell(value)[..i] + [BitAt(value, i)];
      if ShiftRight(value, i) % 2 == 1 {
        enc := enc + [1];
      } else {
        enc := enc + [0];
      }
    }
    assert EncodeCell(value)[..CellWidth] == EncodeCell(value);
  }

  /** Every element of the public input is the bit the row-major,
      least-significant-first layout puts there. */
  lemma SerializeBits(mat: seq<seq<Byte>>, n: nat)
    requires IsSquare(mat, n)
    ensures forall r, c :: 0 <= r < n && 0 <= c < n ==>
              BlockStart(r, c, n) + CellWidth <= |Serialize(mat)|
    ensures forall r, c, i :: 0 <= r < n && 0 <= c < n && 0 <= i < CellWidth ==>
              Serialize(mat)[BlockStart(r, c, n) + i] == BitAt(mat[r][c], i)
  {
    SerializeLength(mat, n, n);
    forall r, c | 0 <= r < n && 0 <= c < n
      ensures BlockStart(r, c, n) + CellWidth <= |Serialize(mat)|
    {
      BlockOrder(n, r, c, r, c);
    }
    forall r, c, i | 0 <= r < n && 0 <= c < n && 0 <= i < CellWidth
      ensures Serialize(mat)[BlockStart(r, c, n) + i] == BitAt(mat[r][c], i)
    {
      SerializeAt(mat, n, r, c, i);
    }
  }

  /** Encoding distributes over concatenation of cell sequences. */
  lemma {:induction false} EncodeCellsAppend(a: seq<Byte>, b: seq<Byte>)
    ensures EncodeCells(a + b) == EncodeCells(a) + EncodeCells(b)
  {
    if |b| > 0 {
      var b' := b[..|b| - 1];
      EncodeCellsAppend(a, b');
      assert (a + b)[..|a + b| - 1] == a + b';
      assert (a + b)[|a + b| - 1] == b[|b| - 1];
    } else {
      assert a + b == a;
    }
  }

  /** Element i of the block of cell k is bit i of that cell. */
  lemma {:induction false} EncodeCellsAt(cells: seq<Byte>, k: nat, i: nat)
    requires k < |cells| && i < CellWidth
    ensures EncodeCells(cells)[CellWidth * k + i] == BitAt(cells[k], i)
  {
    var last := |cells| - 1;
    var front := EncodeCells(cells[..last]);
    assert EncodeCells(cells) == front + EncodeCell(cells[last]);
    assert |front| == CellWidth * last;
    if k < last {
      assert CellWidth * k + i < CellWidth * last;
      EncodeCellsAt(cells[..last], k, i);
    } else {
      assert CellWidth * k + i == |front| + i;
      EncodeBitsAt(cells[k], CellWidth, i);
    }
  }

  /** The grid encoding is the encoding of its row-major flattening. */
  lemma {:induction false} SerializeFlat(mat: seq<seq<Byte>>)
    ensures Serialize(mat) == EncodeCells(Flatten(mat))
  {
    if |mat| > 0 {
      var front := mat[..|mat| - 1];
      SerializeFlat(front);
      EncodeCellsAppend(Flatten(front), mat[|mat| - 1]);
    }
  }

  /** The public input of a grid with `rows` rows of width n has exactly
      8 * rows * n elements: one 8-element block per cell and nothing else. */
  lemma SerializeLength(mat: seq<seq<Byte>>, rows: nat, n: nat)
    requires HasShape(mat, rows, n)
    ensures |Serialize(mat)| == CellWidth * (rows * n)
  {
    SerializeFlat(mat);
    FlattenLength(mat, rows, n);
  }

  /** The element at 8 * (r * n + c) + i is `(mat[r][c] >> i) & 1`: cells in
      row-major order, bits least-significant first. */
  lemma SerializeAt(mat: seq<seq<Byte>>, n: nat, r: nat, c: nat, i: nat)
    requires IsSquare(mat, n)
    requires r < n && c < n && i < CellWidth
    ensures BlockStart(r, c, n) + i < |Serialize(mat)|
    ensures Serialize(mat)[BlockStart(r, c, n) + i] == BitAt(mat[r][c], i)
  {
    var cells, k := Flatten(mat), CellIndex(r, c, n);
    SerializeFlat(mat);
    FlattenAt(mat, n, n, r, c);
    BlockInside(k, |cells|, i);
    EncodeCellsAt(cells, k, i);
  }

  /** Element i of block k lies before the end of m whole blocks. */
  lemma BlockInside(k: nat, m: nat, i: nat)
    requires k < m && i < CellWidth
    ensures CellWidth * k + i < CellWidth * m
  {
    assert CellWidth * k + CellWidth <= CellWidth * m;
  }

  /** The block of cell (r, c) precedes the block of cell (r2, c2) exactly
      when (r, c) comes first in lexicographic order; blocks of distinct
      cells do not overlap, and every block lies inside the input. */
  lemma BlockOrder(n: nat, r: nat, c: nat, r2: nat, c2: nat)
    requires r < n && c < n && r2 < n && c2 < n
    ensures BlockStart(r, c, n) < BlockStart(r2, c2, n) <==> (r < r2 || (r == r2 && c < c2))
    ensures (r, c) != (r2, c2) ==>
              BlockStart(r, c, n) + CellWidth <= BlockStart(r2, c2, n) ||
              BlockStart(r2, c2, n) + CellWidth <= BlockStart(r, c, n)
    ensures BlockStart(r, c, n) + CellWidth <= CellWidth * (n * n)
  {
    if r < r2 || (r == r2 && c < c2) {
      RowMajorOrder(n, r, c, r2, c2);
    } else if (r, c) != (r2, c2) {
      RowMajorOrder(n, r2, c2, r, c);
    }
    if (r, c) != (n - 1, n - 1) {
      RowMajorOrder(n, r, c, n - 1, n - 1);
    }
    assert CellIndex(n - 1, n - 1, n) + 1 == n * n;
  }

  /** Row-major positions: lexicographically earlier cells come first. */
  lemma RowMajorOrder(n: nat, r: nat, c: nat, r2: nat, c2: nat)
    requires r < n && c < n && r2 < n && c2 < n
    requires r < r2 || (r == r2 && c < c2)
    ensures CellIndex(r, c, n) < CellIndex(r2, c2, n)
  {
    if r < r2 {
      var gap := r2 - r - 1;
      assert r2 * n == r * n + n + gap * n;
      assert gap * n >= 0;
    }
  }

  /** Decoding undoes encoding on every sequence of cells. */
  lemma {:induction false} DecodeEncodeCells(cells: seq<Byte>)
    ensures DecodeCells(EncodeCells(cells)) == cells
  {
    if |cells| > 0 {
      var front, last := cells[..|cells| - 1], cells[|cells| - 1];
      var enc := EncodeCells(cells);
      var cut := |enc| - CellWidth;
      assert enc[..cut] == EncodeCells(front);
      assert enc[cut..] == EncodeCell(last);
      DecodeEncodeCells(front);
      CellRoundTrip(last);
    }
  }

  /** Encoding undoes decoding on every sequence of whole binary blocks. */
  lemma {:induction false} EncodeDecodeCells(enc: seq<int>)
    requires |enc| % CellWidth == 0 && IsBinary(enc)
    ensures EncodeCells(DecodeCells(enc)) == enc
  {
    if |enc| > 0 {
      var cut := DecodeCellsLast(enc);
      var front, block := enc[..cut], enc[cut..];
      EncodeDecodeCells(front);
      EncodeCellsSnoc(DecodeCells(front), DecodeCell(block));
      assert enc == front + block;
    }
  }

  /** The last block of a non-empty input decodes to the last cell. */
  lemma DecodeCellsLast(enc: seq<int>) returns (cut: nat)
    requires |enc| % CellWidth == 0 && IsBinary(enc) && |enc| > 0
    ensures cut == |enc| - CellWidth
    ensures |enc[..cut]| % CellWidth == 0 && IsBinary(enc[..cut])
    ensures |enc[cut..]| == CellWidth && IsBinary(enc[cut..])
    ensures DecodeCells(enc) == DecodeCells(enc[..cut]) + [DecodeCell(enc[cut..])]
  {
    cut := |enc| - CellWidth;
    BinarySplit(enc, cut);
  }

  /** Encoding one more cell appends that cell's block. */
  lemma EncodeCellsSnoc(cells: seq<Byte>, cell: Byte)
    ensures EncodeCells(cells + [cell]) == EncodeCells(cells) + EncodeCell(cell)
  {
    assert (cells + [cell])[..|cells|] == cells;
  }

  /** Both parts of a 0/1 sequence are 0/1 sequences. */
  lemma BinarySplit(enc: seq<int>, cut: nat)
    requires IsBinary(enc) && cut <= |enc|
    ensures IsBinary(enc[..cut]) && IsBinary(enc[cut..])
  {
    assert forall k :: 0 <= k < cut ==> enc[..cut][k] == enc[k];
    assert forall k :: 0 <= k < |enc| - cut ==> enc[cut..][k] == enc[cut + k];
  }

  /** Round trip: decoding the public input of an n x n grid gives the grid
      back. */
  lemma DeserializeSerialize(mat: seq<seq<Byte>>, n: nat)
    requires IsSquare(mat, n)
    ensures Deserialize(Serialize(mat), n) == Some(mat)
  {
    SerializeLength(mat, n, n);
    SerializeFlat(mat);
    DecodeEncodeCells(Flatten(mat));
    UnflattenFlatten(mat, n, n);
  }

  /** Whatever decodes to a grid is exactly that grid's public input. */
  lemma SerializeDeserialize(enc: seq<int>, n: nat)
    requires Deserialize(enc, n).Some?
    ensures Serialize(Deserialize(enc, n).value) == enc
  {
    var cells := DecodeCells(enc);
    var mat := Unflatten(cells, n, n);
    SerializeFlat(mat);
    FlattenUnflatten(cells, n, n);
    EncodeDecodeCells(enc);
  }

  /** An input decodes to a grid exactly when it has 8 * n * n elements,
      all of them 0 or 1; those are precisely the public inputs of n x n
      grids. */
  lemma DeserializeDefined(enc: seq<int>, n: nat)
    ensures Deserialize(enc, n).Some? <==> |enc| == CellWidth * (n * n) && IsBinary(enc)
    ensures Deserialize(enc, n).Some? <==> exists mat :: IsSquare(mat, n) && Serialize(mat) == enc
  {
    if Deserialize(enc, n).Some? {
      SerializeDeserialize(enc, n);
    }
    forall mat | IsSquare(mat, n) && Serialize(mat) == enc
      ensures Deserialize(enc, n).Some?
    {
      DeserializeSerialize(mat, n);
    }
  }

  /** Two n x n grids have the same public input if and only if they are
      equal. */
  lemma SerializeInjective(a: seq<seq<Byte>>, b: seq<seq<Byte>>, n: nat)
    requires IsSquare(a, n) && IsSquare(b, n)
    ensures Serialize(a) == Serialize(b) <==> a == b
  {
    DeserializeSerialize(a, n);
    DeserializeSerialize(b, n);
  }

  /** The block of cell (r, c) is that cell's encoding. */
  lemma SerializeBlock(mat: seq<seq<Byte>>, n: nat, r: nat, c: nat)
    requires IsSquare(mat, n) && r < n && c < n
    ensures BlockStart(r, c, n) + CellWidth <= |Serialize(mat)|
    ensures Serialize(mat)[BlockStart(r, c, n)..BlockStart(r, c, n) + CellWidth] == EncodeCell(mat[r][c])
  {
    var enc := Serialize(mat);
    var s := BlockStart(r, c, n);
    BlockOrder(n, r, c, r, c);
    SerializeLength(mat, n, n);
    var block := enc[s..s + CellWidth];
    forall i | 0 <= i < CellWidth ensures block[i] == EncodeCell(mat[r][c])[i] {
      SerializeAt(mat, n, r, c, i);
      EncodeBitsAt(mat[r][c], CellWidth, i);
    }
  }

  /** Element-wise round trip: the eight elements at 8 * (r * n + c),
      weighted by 2^i, sum to cell (r, c), for every byte value. */
  lemma CellBlockRoundTrip(mat: seq<seq<Byte>>, n: nat, r: nat, c: nat)
    requires IsSquare(mat, n) && r < n && c < n
    ensures BlockStart(r, c, n) + CellWidth <= |Serialize(mat)|
    ensures DecodeBits(Serialize(mat)[BlockStart(r, c, n)..BlockStart(r, c, n) + CellWidth]) == mat[r][c]
  {
    SerializeBlock(mat, n, r, c);
    CellRoundTrip(mat[r][c]);
  }

  /** Row r of the grid occupies the 8 * n elements starting at 8 * r * n,
      and they are the encoding of that row alone: the public input is the
      concatenation of per-row encodings. */
  lemma SerializeRow(mat: seq<seq<Byte>>, n: nat, r: nat)
    requires IsSquare(mat, n) && r < n
    ensures |EncodeCells(mat[r])| == CellWidth * n
    ensures RowStart(r, n) + |EncodeCells(mat[r])| <= |Serialize(mat)|
    ensures Serialize(mat)[RowStart(r, n)..RowStart(r, n) + |EncodeCells(mat[r])|] == EncodeCells(mat[r])
  {
    var front, rest := mat[..r + 1], mat[r + 1..];
    assert mat == front + rest;
    assert front[..r] == mat[..r];
    SerializeAppend(front, rest);
    var head := Serialize(mat[..r]);
    var row := EncodeCells(mat[r]);
    assert Serialize(mat) == head + row + Serialize(rest);
    SerializeLength(mat[..r], r, n);
  }

  /** Encoding distributes over concatenation of grids' row lists. */
  lemma {:induction false} SerializeAppend(a: seq<seq<Byte>>, b: seq<seq<Byte>>)
    ensures Serialize(a + b) == Serialize(a) + Serialize(b)
  {
    if |b| > 0 {
      var b' := b[..|b| - 1];
      SerializeAppend(a, b');
      assert (a + b)[..|a + b| - 1] == a + b';
      assert (a + b)[|a + b| - 1] == b[|b| - 1];
    } else {
      assert a + b == a;
    }
  }
}
