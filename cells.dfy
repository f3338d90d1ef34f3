/** The cell of the cave grid: a 2-bit water field and a 3-bit sediment field
    packed into one byte. Stores into either field keep only the low bits, so
    every update wraps modulo 4 (water) or modulo 8 (sediment). */
module Cells {

  /** Value range of the 2-bit `water` bit-field. */
  type Water = w: int | 0 <= w < 4

  /** Value range of the 3-bit `sediment` bit-field. */
  type Sediment = s: int | 0 <= s < 8

  /** A byte, as carried by the `all` member of the union. */
  type Byte = b: int | 0 <= b < 256

  datatype Cell = Cell(water: Water, sediment: Sediment)

  /** A cell whose sediment exceeds 5 is rock. */
  predicate IsRock(c: Cell) {
    c.sediment > 5
  }

  /** The state every rock cell is forced to: water 0, sediment 6. */
  const Rock: Cell := Cell(0, 6)

  /** A cell whose byte is 0. */
  const Air: Cell := Cell(0, 0)

  /** `field += k` on the 2-bit water field. */
  function AddWater(w: Water, k: nat): Water
  {
    (w + k) % 4
  }

  /** `field += k` on the 3-bit sediment field. */
  function AddSediment(s: Sediment, k: nat): Sediment
  {
    (s + k) % 8
  }

  /** `if (water > 0) water -= 1`: the only decrement the rules perform. */
  function Drain(w: Water): Water {
    if w > 0 then w - 1 else w
  }

  lemma AddWaterTwice(w: Water, a: nat, b: nat)
    ensures AddWater(AddWater(w, a), b) == AddWater(w, a + b)
  {
  }

  lemma AddSedimentTwice(s: Sediment, a: nat, b: nat)
    ensures AddSediment(AddSediment(s, a), b) == AddSediment(s, a + b)
  {
  }

  /** The stores wrap: below the field width an add is exact, at the field
      width it comes back to the start, and a guarded decrement never leaves
      the range. */
  lemma FieldsWrap(w: Water, s: Sediment, k: nat)
    ensures w + k < 4 ==> AddWater(w, k) == w + k
    ensures AddWater(w, 4) == w && AddWater(3, 1) == 0
    ensures s + k < 8 ==> AddSediment(s, k) == s + k
    ensures AddSediment(s, 8) == s && AddSediment(7, 1) == 0
    ensures Drain(w) <= w && (w > 0 ==> Drain(w) == w - 1) && Drain(0) == 0
  {
  }

  /** The byte of a cell, assuming the first bit-field takes the two low bits
      and the second the next three (the C++ layout is implementation-defined);
      the three high bits are 0. */
  function Pack(c: Cell): (b: Byte)
    ensures b < 32
  {
    c.water + 4 * c.sediment
  }

  /** The two fields read back from a byte; the three high bits are ignored. */
  function Unpack(b: Byte): Cell {
    Cell(b % 4, (b / 4) % 8)
  }

  lemma {:induction false} UnpackPack(c: Cell)
    ensures Unpack(Pack(c)) == c
  {
    var b := Pack(c);
    assert b / 4 == c.sediment && b % 4 == c.water;
  }

  lemma {:induction false} PackUnpack(b: Byte)
    requires b < 32
    ensures Pack(Unpack(b)) == b
  {
    var q, r := b / 4, b % 4;
    assert b == 4 * q + r;
    assert q < 8;
    assert Unpack(b) == Cell(r, q);
  }

  /** The zeroing loop writes `all = 0`, which reads back as water 0, sediment 0. */
  lemma ZeroByteIsAir()
    ensures Unpack(0) == Air && Pack(Air) == 0 && !IsRock(Air) && IsRock(Rock)
  {
  }
}
