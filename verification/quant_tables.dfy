/** The quantization tables a `Q` in 1 to 127 stands for (Appendix A of RFC 2435). */
module QuantTables {
  import opened Bytes

  /** Entry `i` is the row-major index of the `i`-th coefficient in scan order. */
  const ZIGZAG: seq<bytes> :=
    [[0, 1, 8, 16, 9, 2, 3, 10],
     [17, 24, 32, 25, 18, 11, 4, 5],
     [12, 19, 26, 33, 40, 48, 41, 34],
     [27, 20, 13, 6, 7, 14, 21, 28],
     [35, 42, 49, 56, 57, 50, 43, 36],
     [29, 22, 15, 23, 30, 37, 44, 51],
     [58, 59, 52, 45, 38, 31, 39, 46],
     [53, 60, 61, 54, 47, 55, 62, 63]]

  const LUMA: seq<bytes> :=
    [[16, 11, 10, 16, 24, 40, 51, 61],
     [12, 12, 14, 19, 26, 58, 60, 55],
     [14, 13, 16, 24, 40, 57, 69, 56],
     [14, 17, 22, 29, 51, 87, 80, 62],
     [18, 22, 37, 56, 68, 109, 103, 77],
     [24, 35, 55, 64, 81, 104, 113, 92],
     [49, 64, 78, 87, 103, 121, 120, 101],
     [72, 92, 95, 98, 112, 100, 103, 99]]

  const CHROMA: seq<bytes> :=
    [[17, 18, 24, 47, 99, 99, 99, 99],
     [18, 21, 26, 66, 99, 99, 99, 99],
     [24, 26, 56, 99, 99, 99, 99, 99],
     [47, 66, 99, 99, 99, 99, 99, 99],
     [99, 99, 99, 99, 99, 99, 99, 99],
     [99, 99, 99, 99, 99, 99, 99, 99],
     [99, 99, 99, 99, 99, 99, 99, 99],
     [99, 99, 99, 99, 99, 99, 99, 99]]

  /** Eight rows of eight. */
  predicate Square(m: seq<bytes>) {
    |m| == 8 && forall k :: 0 <= k < 8 ==> |m[k]| == 8
  }

  /** Entry `i` in reading order. */
  function Cell(m: seq<bytes>, i: nat): byte
    requires Square(m) && i < 64
  {
    m[i / 8][i % 8]
  }

  /** Where the `i`-th coefficient in scan order lies. */
  function ScanAt(i: nat): (at: nat)
    requires i < 64
    ensures at < 64
  {
    Cell(ZIGZAG, i) % 64
  }

  function Clamp(v: int, lo: int, hi: int): (r: int)
    requires lo <= hi
    ensures lo <= r <= hi
  {
    if v < lo then lo else if v > hi then hi else v
  }

  function Factor(q: nat): nat {
    var c := Clamp(q, 1, 99);
    if c < 50 then 5000 / c else 200 - c * 2
  }

  function Entry(base: seq<bytes>, factor: nat, i: nat): byte
    requires Square(base) && i < 64
  {
    Clamp((Cell(base, ScanAt(i)) * factor + 50) / 100, 1, 255)
  }

  /** `base` scaled for quality `q`, in scan order. */
  function Scaled(base: seq<bytes>, q: nat): (r: bytes)
    requires Square(base)
    ensures |r| == 64
  {
    seq(64, i requires 0 <= i < 64 => Entry(base, Factor(q), i))
  }

  function Defaults(q: nat): (r: seq<bytes>)
    ensures |r| == 2 && |r[0]| == 64 && |r[1]| == 64
  {
    [Scaled(LUMA, q), Scaled(CHROMA, q)]
  }

  // ----- what the tables look like

  /** The cell behind `at` in the diagonal walk over an 8 by 8 block: up to the right along even diagonals, down to the
      left along odd ones, and along the edge from one to the next. */
  function WalkOn(at: nat): nat
    requires at < 64
  {
    var row, col := at / 8, at % 8;
    if (row + col) % 2 == 0 then
      if col == 7 then at + 8 else if row == 0 then at + 1 else at - 7
    else
      if row == 7 then at + 1 else if col == 0 then at + 8 else at + 7
  }

  /** A row follows the walk, and the walk leads on to `next`. */
  predicate Walks(row: bytes, next: nat) {
    && |row| == 8 && (forall k :: 0 <= k < 8 ==> row[k] < 64)
    && WalkOn(row[0]) == row[1] as nat && WalkOn(row[1]) == row[2] as nat && WalkOn(row[2]) == row[3] as nat
    && WalkOn(row[3]) == row[4] as nat && WalkOn(row[4]) == row[5] as nat && WalkOn(row[5]) == row[6] as nat
    && WalkOn(row[6]) == row[7] as nat && WalkOn(row[7]) == next
  }

  lemma {:induction false} UpperRows()
    ensures Walks(ZIGZAG[0], 17) && Walks(ZIGZAG[1], 12) && Walks(ZIGZAG[2], 27) && Walks(ZIGZAG[3], 35)
  {
  }

  lemma {:induction false} LowerRows()
    ensures Walks(ZIGZAG[4], 29) && Walks(ZIGZAG[5], 58) && Walks(ZIGZAG[6], 53)
  {
  }

  lemma {:induction false} LastRow()
    ensures Walks(ZIGZAG[7], WalkOn(63)) && ZIGZAG[7][7] == 63
  {
  }

  lemma {:induction false} RowStarts()
    ensures Square(ZIGZAG) && ZIGZAG[0][0] == 0 && ZIGZAG[1][0] == 17 && ZIGZAG[2][0] == 12 && ZIGZAG[3][0] == 27
    ensures ZIGZAG[4][0] == 35 && ZIGZAG[5][0] == 29 && ZIGZAG[6][0] == 58 && ZIGZAG[7][0] == 53
  {
  }

  /** Scan order is that walk, from the first cell to the last. */
  lemma {:induction false} ScanWalks(r: nat)
    requires r < 8
    ensures Square(ZIGZAG) && ZIGZAG[0][0] == 0 && ZIGZAG[7][7] == 63
    ensures Walks(ZIGZAG[r], if r < 7 then ZIGZAG[r + 1][0] as nat else WalkOn(63))
  {
    hide Walks, WalkOn;
    RowStarts();
    UpperRows();
    LowerRows();
    LastRow();
  }

  /** Quality 50 is the table itself, in scan order. */
  lemma {:induction false} FiftyIsBase(base: seq<bytes>, i: nat)
    requires Square(base) && i < 64 && Cell(base, ScanAt(i)) > 0
    ensures Scaled(base, 50)[i] == Cell(base, ScanAt(i))
  {
    hide ScanAt;
    var b: nat := Cell(base, ScanAt(i));
    assert (b * 100 + 50) / 100 == b;
  }

  lemma {:induction false} FactorFalls(q: nat, r: nat)
    requires 1 <= q <= r
    ensures Factor(r) <= Factor(q)
  {
    var c, d := Clamp(q, 1, 99), Clamp(r, 1, 99);
    if d < 50 {
      QuotientFalls(c, d);
    } else if c < 50 {
      QuotientFalls(c, 49);
    }
  }

  lemma {:induction false} QuotientFalls(c: nat, d: nat)
    requires 1 <= c <= d
    ensures 5000 / d <= 5000 / c
  {
    var x, y := 5000 / c, 5000 / d;
    assert y * d <= 5000 < (x + 1) * c;
    if x + 1 <= y {
      Grows(x + 1, y, c, d);
    }
  }

  lemma {:induction false} Grows(a: nat, b: nat, c: nat, d: nat)
    requires a <= b && c <= d
    ensures a * c <= b * d
  {
    assert b * d - a * c == (b - a) * d + a * (d - c);
  }

  /** A higher quality never has a coarser step. */
  lemma {:induction false} FinerWithQuality(base: seq<bytes>, q: nat, r: nat, i: nat)
    requires Square(base) && i < 64 && 1 <= q <= r
    ensures 1 <= Scaled(base, r)[i] <= Scaled(base, q)[i]
  {
    hide ScanAt, Factor;
    FactorFalls(q, r);
    Grows(Cell(base, ScanAt(i)), Cell(base, ScanAt(i)), Factor(r), Factor(q));
  }

  lemma {:induction false} FirstCells()
    ensures ScanAt(0) == 0 && ScanAt(1) == 1 && ScanAt(2) == 8 && ScanAt(3) == 16
    ensures ScanAt(4) == 9 && ScanAt(5) == 2 && ScanAt(6) == 3 && ScanAt(7) == 10 && ScanAt(63) == 63
  {
  }

  lemma {:induction false} LumaCells()
    ensures Square(LUMA) && Cell(LUMA, 0) == 16 && Cell(LUMA, 1) == 11 && Cell(LUMA, 8) == 12 && Cell(LUMA, 16) == 14
    ensures Cell(LUMA, 9) == 12 && Cell(LUMA, 2) == 10 && Cell(LUMA, 3) == 16 && Cell(LUMA, 10) == 14
    ensures Cell(LUMA, 63) == 99
  {
  }

  lemma {:induction false} ChromaCells()
    ensures Square(CHROMA) && Cell(CHROMA, 0) == 17 && Cell(CHROMA, 63) == 99
  {
  }

  /** Some entries as implementations of RFC 2435 have them: at quality 50 the tables begin so in scan order. */
  lemma {:induction false} KnownEntries()
    ensures var l, c := Scaled(LUMA, 50), Scaled(CHROMA, 50);
            && l[0] == 16 && l[1] == 11 && l[2] == 12 && l[3] == 14 && l[4] == 12 && l[5] == 10 && l[6] == 16 && l[7] == 14
            && c[0] == 17 && c[63] == 99
  {
    hide ScanAt, LUMA, CHROMA, Scaled, Cell, Square;
    FirstCells();
    LumaCells();
    ChromaCells();
    FiftyIsBase(LUMA, 0);
    FiftyIsBase(LUMA, 1);
    FiftyIsBase(LUMA, 2);
    FiftyIsBase(LUMA, 3);
    FiftyIsBase(LUMA, 4);
    FiftyIsBase(LUMA, 5);
    FiftyIsBase(LUMA, 6);
    FiftyIsBase(LUMA, 7);
    FiftyIsBase(CHROMA, 0);
    FiftyIsBase(CHROMA, 63);
  }

  /** The ends of the scale: quality counts to 99, and steps stay between 1 and 255. */
  lemma {:induction false} KnownEnds()
    ensures Scaled(LUMA, 99)[0] == 1 && Scaled(LUMA, 1)[63] == 255 && Scaled(LUMA, 25)[0] == 32
    ensures Scaled(LUMA, 127) == Scaled(LUMA, 99) && Scaled(CHROMA, 127) == Scaled(CHROMA, 99)
  {
    hide ScanAt, LUMA, CHROMA, Cell, Square;
    FirstCells();
    LumaCells();
    ChromaCells();
  }
}
