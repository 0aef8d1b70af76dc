# Public-input encoder of a Groth16 Sudoku prover, in Dafny

The system proves in zero knowledge that a prover holds a valid solution of a
public 9 x 9 Sudoku puzzle. The verifier never sees the solution. It checks the
proof against the public input: the puzzle grid, bit-encoded by
`serialize_input`. This project models that encoder. The encoder must match
the circuit's public-input wiring bit for bit, so its length and bit order are
what matters.

The encoder walks the N x N grid of `u8` cells in row-major order. Each cell
becomes exactly 8 field elements, 0 or 1. Element i of a cell is
`(value >> i) & 1`, so the least significant bit comes first. Field elements
are modelled as the integers 0 and 1.

Modules:

- `Bits` (`bits.dfy`): a byte as eight least-significant-first bits
  (`EncodeBits`, `BitAt` for `(v >> i) & 1`). It also holds the decoder
  `DecodeBits`, the sum of bits[i] * 2^i, and the round trips in both
  directions.
- `Grid` (`grid.dfy`): N x N grids, the `Circuit` record (solution and
  puzzle), and the clue-agreement predicate. It also holds the row-major
  `Flatten` and its inverse `Unflatten`.
- `PublicInput` (`serialize.dfy`): `SerializeInput` is the source's
  triple loop, statement for statement. `Serialize` is the same encoding as a
  recursive definition. `Deserialize` is a reference decoder. The module also
  holds the length, bit-position, row-major-order, per-row, round-trip and
  injectivity lemmas.
- `Sample` (`sample.dfy`): the driver's sample puzzle and solution.

The encoding is least-significant bit first: `i` runs over 0..8 and tests
`(value >> i) & 1`. The sample puzzle has 30 clues and 51 blanks.

## Model

| member | source | states |
|---|---|---|
| PublicInput.SerializeInput | src/main.rs:19-33 | The triple loop returns the recursive encoding `Serialize(mat)`. Its length is exactly 8·N·N. Every element is 0 or 1. The element at 8·(r·N + c) + i is `(mat[r][c] >> i) & 1` for every cell and every i < 8. |
| PublicInput.PushRow | src/main.rs:22-29 | The loop over one row's cells appends exactly the encoding of that row: the blocks of its cells, left to right. |
| PublicInput.PushCell | src/main.rs:23-29 | The loop over i = 0..8 that pushes 1 when `(value >> i) & 1 == 1` and 0 otherwise appends exactly the cell's 8-element block, whose least-significant-first value is the cell. |
| PublicInput.SerializeAt | src/main.rs:21-28 | For one cell (r, c) and one i < 8: element 8·(r·N + c) + i exists and is `(mat[r][c] >> i) & 1`. |
| PublicInput.SerializeLength | src/main.rs:20-32 | A grid of `rows` rows of width N encodes to exactly 8·rows·N elements: one 8-element block per cell and nothing else. |
| PublicInput.Serialize | src/main.rs:24-28 | Every element of the encoding is 0 or 1. |
| PublicInput.EncodeCells | src/main.rs:22-29 | Encoding a row of k cells gives 8·k elements, all 0 or 1. |
| PublicInput.EncodeCellsAt | src/main.rs:22-24 | Element 8·k + i of a row's encoding is bit i of cell k. |
| PublicInput.EncodeCellsAppend | src/main.rs:22-29 | Encoding the cells a + b gives the encoding of a followed by the encoding of b. |
| PublicInput.SerializeAppend | src/main.rs:21-31 | Encoding the rows a + b gives the encoding of a followed by the encoding of b. |
| PublicInput.SerializeFlat | src/main.rs:21-22 | Encoding a grid is the same as encoding the row-major sequence of its cells. |
| PublicInput.SerializeRow | src/main.rs:21-31 | The output is the concatenation of per-row encodings. Row r occupies the 8·N elements starting at 8·r·N, and they are the encoding of that row alone. |
| PublicInput.SerializeBlock | src/main.rs:22-29 | The 8 elements starting at 8·(r·N + c) are exactly the encoding of cell (r, c). |
| PublicInput.BlockOrder | src/main.rs:21-22 | The block of (r, c) starts before the block of (r', c') if and only if (r, c) < (r', c') lexicographically. Blocks of distinct cells do not overlap, and each block ends within 8·N·N. |
| PublicInput.RowMajorOrder | src/main.rs:21-22 | A lexicographically earlier cell has a smaller row-major position. |
| PublicInput.CellBlockRoundTrip | src/main.rs:23-28 | For every cell, the sum of out[8k + i]·2^i over i < 8 equals the cell value, for every byte value. Eight bits cover the whole `u8` range, so nothing is truncated. |
| PublicInput.DecodeCells | src/main.rs:22-29 | Decoding whole binary blocks gives one cell per 8 elements. |
| PublicInput.DecodeEncodeCells | src/main.rs:22-29 | Decoding the encoding of any cell sequence gives the sequence back. |
| PublicInput.EncodeDecodeCells | src/main.rs:22-29 | Encoding the decoding of any whole-block 0/1 sequence gives the sequence back. |
| PublicInput.Deserialize | src/main.rs:19-33 | The reference decoder yields an N x N grid whenever it succeeds. |
| PublicInput.DeserializeSerialize | src/main.rs:19-33 | Round trip: the public input of an N x N grid decodes to that grid. |
| PublicInput.SerializeDeserialize | src/main.rs:19-33 | Whatever decodes to a grid is exactly the encoding of that grid. |
| PublicInput.DeserializeDefined | src/main.rs:19-33 | An input decodes if and only if it has 8·N·N elements that are all 0 or 1. This holds if and only if it is the encoding of some N x N grid. |
| PublicInput.SerializeInjective | src/main.rs:21-28 | Two N x N grids have equal encodings if and only if the grids are equal. |
| Bits.ShiftRight | src/main.rs:24 | `v >> i` never exceeds v, and it is 0 whenever v < 2^i. |
| Bits.ShiftRightIsDivision | src/main.rs:24 | `v >> i` is v divided by 2^i, rounded down, for every v and i. |
| Bits.BitAt | src/main.rs:24 | `(v >> i) & 1` is always 0 or 1. |
| Bits.EncodeBits | src/main.rs:23-29 | The w-bit encoding has exactly w elements, all 0 or 1. |
| Bits.EncodeBitsAt | src/main.rs:23-24 | Element i of the recursive encoding of v is `(v >> i) & 1`, so the encoding is least-significant bit first. |
| Bits.DecodeBits | src/main.rs:23-28 | A 0/1 string of length w decodes to a value in [0, 2^w). |
| Bits.EncodeCell | src/main.rs:23-29 | A cell's block has exactly 8 elements, all 0 or 1, and their least-significant-first value is the cell. |
| Bits.DecodeCell | src/main.rs:23-28 | A binary 8-element block decodes to a byte whose encoding is that block. |
| Bits.DecodeEncode | src/main.rs:23-28 | Decoding the w-bit encoding of v gives v back for every v < 2^w. |
| Bits.EncodeDecode | src/main.rs:23-28 | Encoding the value of a 0/1 string of length w, to w bits, gives the string back. |
| Bits.CellRoundTrip | src/main.rs:23-28 | Every byte 0..255 encodes to 8 elements that decode back to it. |
| Bits.EncodeCellInjective | src/main.rs:23-28 | Two bytes have the same block if and only if they are equal. |
| Grid.BlankAndSelfAgree | src/main.rs:14-17 | Every N x N solution agrees with the all-blank puzzle of the setup circuit (lines 36-39) and with itself taken as the puzzle. |
| Grid.UpdateAgrees | src/main.rs:14-17 | Overwriting one solution cell of an agreeing circuit keeps agreement if and only if the puzzle cell there is blank or the new value equals its clue. |
| Grid.Flatten | src/main.rs:21-22 | Every cell of every row occurs in the row-major cell sequence, and every element of that sequence is a cell of some row. |
| Grid.FlattenLength | src/main.rs:21-22 | Visiting `rows` rows of width N cell by cell yields rows·N cells. |
| Grid.FlattenAt | src/main.rs:21-22 | Cell (r, c) is visited at position r·N + c. |
| Grid.Unflatten | src/main.rs:21-22 | Cutting rows·N cells into rows gives a grid of `rows` rows of width N. |
| Grid.UnflattenFlatten | src/main.rs:21-22 | Cutting the row-major cell sequence back into rows recovers the grid. |
| Grid.FlattenUnflatten | src/main.rs:21-22 | Flattening the rows cut from a cell sequence recovers the sequence. |
| Sample.SampleAgrees | src/main.rs:65-89 | The sample circuit is 9 x 9, and its solution agrees with every non-blank clue of its puzzle. The driver's successful verification at line 115 relies on this. |
| Sample.SampleMismatch | src/main.rs:65-89 | Changing the solution's top-left 5 to 1 breaks agreement with the clue 5 at that position. |
| Sample.SamplePublicInput | src/main.rs:107-108 | The sample puzzle encodes to 648 elements, all 0 or 1, and they decode back to the puzzle. |
| Sample.PuzzleShape | src/main.rs:65-75 | The sample puzzle is 9 x 9 and its first two cells are the clues 5 and 3. |
| Sample.FirstTwoBlocks | src/main.rs:21-29 | For any grid at least two cells wide, elements 0..8 of the public input are the block of cell (0, 0), and elements 8..16 are the block of cell (0, 1). |
| Sample.SampleLeadingBlocks | src/main.rs:66 | The public input starts with 1,0,1,0,0,0,0,0 for the clue 5, followed by 1,1,0,0,0,0,0,0 for the clue 3. |

## Left out

- Groth16 setup, proving and verification are not modelled. Neither are the BLS12-377 curve, the pairing, `Fr` field arithmetic and proof serialization (src/main.rs:1-5, 60, 95, 103, 110). They are opaque calls into external libraries. Output elements are the integers 0 and 1, not field elements.
- The constraint-system construction `generate_constraints` is not modelled. Neither are the modules `alloc`, `cmp` and `constraint` it uses (src/main.rs:9-11, 51). Their source is not part of this model, so booleanity, equality, range and permutation gadgets are absent. The model does not claim that the circuit enforces Sudoku validity.
- Sudoku validity of the solution (each row, column and box a permutation of 1..9) is not modelled. It is enforced only by the circuit, whose source is not part of this model. Only the clue-agreement predicate is modelled.
- Constraint-system satisfiability and the constraint count (src/main.rs:53-54) are not modelled. They are internals of the constraint library.
- Timing with `Instant`, printing, the random number generator and the all-zero setup circuit (src/main.rs:36-63, 97-103, 108-117) are not modelled. They are I/O and nondeterminism.
- The const generic `N` is a parameter `n` with a shape predicate `IsSquare`. The array type `[[u8; N]; N]` becomes a sequence of sequences of bytes, so the shape is a precondition rather than a type.
