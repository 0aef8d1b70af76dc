/** The 9 x 9 instance the driver proves and verifies: the puzzle (0 is a
    blank) and its solution, and what the model says about them. */
module Sample {
  import opened Bits
  import opened Grid
  import opened PublicInput

  const Size: nat := 9

  const Puzzle: seq<seq<Byte>> := [
    [5, 3, 0, 0, 7, 0, 0, 0, 0],
    [6, 0, 0, 1, 9, 5, 0, 0, 0],
    [0, 9, 8, 0, 0, 0, 0, 6, 0],
    [8, 0, 0, 0, 6, 0, 0, 0, 3],
    [4, 0, 0, 8, 0, 3, 0, 0, 1],
    [7, 0, 0, 0, 2, 0, 0, 0, 6],
    [0, 6, 0, 0, 0, 0, 2, 8, 0],
    [0, 0, 0, 4, 1, 9, 0, 0, 5],
    [0, 0, 0, 0, 8, 0, 0, 7, 9]
  ]

  const Solution: seq<seq<Byte>> := [
    [5, 3, 4, 6, 7, 8, 9, 1, 2],
    [6, 7, 2, 1, 9, 5, 3, 4, 8],
    [1, 9, 8, 3, 4, 2, 5, 6, 7],
    [8, 5, 9, 7, 6, 1, 4, 2, 3],
    [4, 2, 6, 8, 5, 3, 7, 9, 1],
    [7, 1, 3, 9, 2, 4, 8, 5, 6],
    [9, 6, 1, 5, 3, 7, 2, 8, 4],
    [2, 8, 7, 4, 1, 9, 6, 3, 5],
    [3, 4, 5, 2, 8, 6, 1, 7, 9]
  ]

  const Instance: Circuit := Circuit(Solution, Puzzle)

  /** The sample solution agrees with every clue of the sample puzzle, the
      relation the driver's successful verification relies on. */
  lemma SampleAgrees()
    ensures WellFormed(Instance, Size)
    ensures AgreesWithClues(Instance, Size)
  {
  }

  /** Changing the solution's top-left 5 to 1 breaks agreement with the
      clue 5 there, although the rest of the grid still agrees. */
  lemma SampleMismatch()
    ensures !AgreesWithClues(Circuit(Solution[0 := Solution[0][0 := 1]], Puzzle), Size)
  {
    assert Puzzle[0][0] == 5;
  }

  /** The public input of the sample puzzle has 9 * 9 * 8 = 648 elements,
      all 0 or 1, and it decodes back to the puzzle. */
  lemma SamplePublicInput()
    ensures |Serialize(Puzzle)| == 648
    ensures IsBinary(Serialize(Puzzle))
    ensures Deserialize(Serialize(Puzzle), Size) == Some(Puzzle)
  {
    SerializeLength(Puzzle, Size, Size);
    DeserializeSerialize(Puzzle, Size);
  }

  /** The first block is the clue 5 = 0b101 and the second the clue
      3 = 0b11, each least-significant bit first. */
  lemma SampleLeadingBlocks()
    ensures |Serialize(Puzzle)| >= 16
    ensures Serialize(Puzzle)[0..8] == [1, 0, 1, 0, 0, 0, 0, 0]
    ensures Serialize(Puzzle)[8..16] == [1, 1, 0, 0, 0, 0, 0, 0]
  {
    PuzzleShape();
    FirstTwoBlocks(Puzzle, Size);
    LeadingClueBits();
  }

  /** The sample puzzle is 9 x 9 and opens with the clues 5 and 3. */
  lemma PuzzleShape()
    ensures IsSquare(Puzzle, Size)
    ensures Puzzle[0][0] == 5 && Puzzle[0][1] == 3
  {
  }

  /** The first two blocks of any grid at least two cells wide are the
      encodings of its first two cells. */
  lemma FirstTwoBlocks(mat: seq<seq<Byte>>, n: nat)
    requires IsSquare(mat, n) && n >= 2
    ensures |Serialize(mat)| >= 16
    ensures Serialize(mat)[0..8] == EncodeCell(mat[0][0])
    ensures Serialize(mat)[8..16] == EncodeCell(mat[0][1])
  {
    assert BlockStart(0, 0, n) == 0 && BlockStart(0, 1, n) == 8;
    SerializeBlock(mat, n, 0, 0);
    SerializeBlock(mat, n, 0, 1);
  }

  /** The encodings of the two leading clues. */
  lemma LeadingClueBits()
    ensures EncodeCell(5) == [1, 0, 1, 0, 0, 0, 0, 0]
    ensures EncodeCell(3) == [1, 1, 0, 0, 0, 0, 0, 0]
  {
    assert EncodeBits(0, 5) == [0, 0, 0, 0, 0];
    assert EncodeBits(0, 6) == [0] + EncodeBits(0, 5);
    assert EncodeBits(1, 6) == [1] + EncodeBits(0, 5);
    assert EncodeBits(2, 7) == [0] + EncodeBits(1, 6);
    assert EncodeBits(1, 7) == [1] + EncodeBits(0, 6);
  }
}
