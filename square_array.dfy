/**
 * A square grid of size * size items stored row by row (src/square_array.rs); the board of
 * src/board.rs keeps its cells in one.
 */
module SquareArrays {
  import Coordinates
  import HexCells

  class SquareArray<T> {
    const size: nat
    const items: array<T>

    ghost predicate Valid() {
      items.Length == size * size
    }

    /**
     * `SquareArray::new`: size * size copies of the default item. Dafny has no `Default`
     * trait, so the default value is a parameter.
     */
    constructor (size: nat, default: T)
      ensures Valid() && this.size == size && fresh(items)
      ensures forall i :: 0 <= i < items.Length ==> items[i] == default
    {
      this.size := size;
      items := new T[size * size](_ => default);
    }

    /**
     * The row-major index of (row, column); the source panics on out-of-range arguments in
     * debug builds, which is the precondition here. Division by the size recovers the pair.
     */
    function IndexFromCoord(row: nat, column: nat): (i: nat)
      requires row < size && column < size
      ensures i == row * size + column && i < size * size
      ensures i / size == row && i % size == column
    {
      HexCells.DivModOfIndex(size, row, column);
      HexCells.DivModBounds(size, size * size - 1);
      HexCells.IndexFromCoords(size, Coordinates.Coords(row, column))
    }

    function AtIndex(index: nat): T
      reads items
      requires index < items.Length
    {
      items[index]
    }

    /** `at_coord`: the item at the row-major index of row and column. */
    function AtCoord(row: nat, column: nat): (item: T)
      reads items
      requires Valid() && row < size && column < size
      ensures row * size + column < items.Length && item == items[row * size + column]
    {
      AtIndex(IndexFromCoord(row, column))
    }

    method SetIndex(index: nat, value: T)
      requires index < items.Length
      modifies items
      ensures items[..] == old(items[..])[index := value]
    {
      items[index] := value;
    }

    method SetCoord(row: nat, column: nat, value: T)
      requires Valid() && row < size && column < size
      modifies items
      ensures items[..] == old(items[..])[IndexFromCoord(row, column) := value]
      ensures AtCoord(row, column) == value
    {
      var index := IndexFromCoord(row, column);
      items[index] := value;
    }
  }

  /** The unit tests of src/square_array.rs on a 3 x 3 array of numbers. */
  method SquareArrayExample(row: nat, column: nat) returns (initial: nat, index5: nat, at5: nat, index7: nat, at7: nat)
    requires row < 3 && column < 3
    ensures initial == 0 && index5 == 5 && at5 == 123 && index7 == 7 && at7 == 123
  {
    var a := new SquareArray<nat>(3, 0);
    initial := a.AtCoord(row, column);
    a.SetIndex(5, 123);
    index5 := a.IndexFromCoord(1, 2);
    assert a.AtCoord(1, 2) == 123;
    at5 := a.AtIndex(5);
    var b := new SquareArray<nat>(3, 0);
    b.SetCoord(2, 1, 123);
    index7 := b.IndexFromCoord(2, 1);
    at7 := b.AtIndex(7);
  }
}
