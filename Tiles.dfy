/**
 * The editor's fixed dimensions, the list of tile IDs a brush can select,
 * and the arithmetic of cycling the brush with the left and right arrow keys.
 */
module Tiles {

  /** Side of one grid cell on screen, in pixels. */
  const TileSize: int := 32
  /** Number of columns of the map. */
  const MapWidth: int := 24
  /** Number of rows of the map. */
  const MapHeight: int := 24

  /** The tile IDs a brush can select, in the order the arrow keys visit them. */
  const TileTypes: seq<int> := [0, 1, 2, 3, 4, 5, 6]
  /** The element count of TileTypes (the source divides the array's byte size by an element's). */
  const NumTileTypes: int := |TileTypes|

  /** Every brush position selects the tile ID equal to that position. */
  lemma TileTypesAreIds()
    ensures NumTileTypes == 7
    ensures forall i :: 0 <= i < NumTileTypes ==> TileTypes[i] == i
  {
  }

  /**
   * The remainder of C++'s `%` on `int` for a positive divisor: the quotient
   * truncates toward zero, so the remainder carries the sign of the dividend
   * (Dafny's own `%` is Euclidean and never negative).
   */
  function CppRem(a: int, b: int): (r: int)
    requires b > 0
    ensures -b < r < b
    ensures a >= 0 ==> 0 <= r
    ensures a < 0 ==> r <= 0
  {
    if a >= 0 then a % b else -((-a) % b)
  }

  /** The brush index after the right arrow key: `(i + 1) % numTileTypes`. */
  function NextTile(i: int): (r: int)
    ensures 0 <= i < NumTileTypes ==> 0 <= r < NumTileTypes
    ensures 0 <= i < NumTileTypes ==> r == if i == NumTileTypes - 1 then 0 else i + 1
  {
    CppRem(i + 1, NumTileTypes)
  }

  /** The brush index after the left arrow key: `(i - 1 + numTileTypes) % numTileTypes`. */
  function PrevTile(i: int): (r: int)
    ensures 0 <= i < NumTileTypes ==> 0 <= r < NumTileTypes
    ensures 0 <= i < NumTileTypes ==> r == if i == 0 then NumTileTypes - 1 else i - 1
  {
    CppRem(i - 1 + NumTileTypes, NumTileTypes)
  }

  /** A left step undoes a right step, and a right step undoes a left step. */
  lemma StepsAreInverse(i: int)
    requires 0 <= i < NumTileTypes
    ensures PrevTile(NextTile(i)) == i
    ensures NextTile(PrevTile(i)) == i
  {
  }

  /** The brush index after pressing the right arrow key `k` times. */
  function PressRight(i: int, k: nat): int
  {
    if k == 0 then i else NextTile(PressRight(i, k - 1))
  }

  /** The brush index after pressing the left arrow key `k` times. */
  function PressLeft(i: int, k: nat): int
  {
    if k == 0 then i else PrevTile(PressLeft(i, k - 1))
  }

  /** A multiple of numTileTypes plus a valid index leaves that index as Euclidean remainder. */
  lemma RemOfShift(q: int, s: int)
    requires 0 <= s < NumTileTypes
    ensures (NumTileTypes * q + s) % NumTileTypes == s
  {
  }

  /** `k` right steps from a valid index move it `k` places forward, modulo the number of tile types. */
  lemma {:induction false} PressRightIsRotation(i: int, k: nat)
    requires 0 <= i < NumTileTypes
    ensures PressRight(i, k) == (i + k) % NumTileTypes
  {
    if k > 0 {
      PressRightIsRotation(i, k - 1);
      var j := (i + k - 1) % NumTileTypes;
      var q := (i + k - 1) / NumTileTypes;
      assert i + k - 1 == NumTileTypes * q + j;
      if j == NumTileTypes - 1 {
        RemOfShift(q + 1, 0);
      } else {
        RemOfShift(q, j + 1);
      }
    }
  }

  /** `k` left steps from a valid index move it `k` places backward, modulo the number of tile types. */
  lemma {:induction false} PressLeftIsRotation(i: int, k: nat)
    requires 0 <= i < NumTileTypes
    ensures PressLeft(i, k) == (i - k) % NumTileTypes
  {
    if k > 0 {
      PressLeftIsRotation(i, k - 1);
      var j := (i - k + 1) % NumTileTypes;
      var q := (i - k + 1) / NumTileTypes;
      assert i - k + 1 == NumTileTypes * q + j;
      if j == 0 {
        RemOfShift(q - 1, NumTileTypes - 1);
      } else {
        RemOfShift(q, j - 1);
      }
    }
  }

  /** Pressing either arrow key numTileTypes times brings the brush back to where it started. */
  lemma FullCycle(i: int)
    requires 0 <= i < NumTileTypes
    ensures PressRight(i, NumTileTypes as nat) == i
    ensures PressLeft(i, NumTileTypes as nat) == i
  {
    PressRightIsRotation(i, NumTileTypes as nat);
    RemOfShift(1, i);
    PressLeftIsRotation(i, NumTileTypes as nat);
    RemOfShift(-1, i);
  }

  /** Any number of steps in either direction keeps a valid brush index valid. */
  lemma {:induction false} PressesStayInRange(i: int, k: nat)
    requires 0 <= i < NumTileTypes
    ensures 0 <= PressRight(i, k) < NumTileTypes
    ensures 0 <= PressLeft(i, k) < NumTileTypes
  {
    if k > 0 {
      PressesStayInRange(i, k - 1);
    }
  }
}
