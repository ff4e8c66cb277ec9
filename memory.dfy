/** Raw memory as the pixel-buffer code sees it, and the integer facts its address arithmetic needs. */
module Memory {

  /** One byte of a pixel buffer (`UInt8`). */
  type Byte = x: int | 0 <= x < 256

  /** Multiplying by a non-negative factor keeps `<=`. */
  lemma MulMono(a: nat, b: nat, c: nat)
    requires a <= b
    ensures a * c <= b * c
  {
  }

  /** A positive multiple of `n` is at least `n`. */
  lemma MulAtLeast(k: int, n: nat)
    requires k >= 1
    ensures k * n >= n
  {
  }

  /** Slot `q * n + r` of a row-major array with rows of length `n` lies in row `q`, column `r`. */
  lemma DivModSlot(q: int, r: int, n: int)
    requires 0 <= r < n
    ensures (q * n + r) / n == q && (q * n + r) % n == r
  {
    var a := q * n + r;
    var d, m := a / n, a % n;
    assert a == d * n + m;
    assert (d - q) * n == r - m;
    if d - q >= 1 {
      MulAtLeast(d - q, n);
    } else if q - d >= 1 {
      MulAtLeast(q - d, n);
    }
  }

  /** Row `row` of a buffer of `h` rows of `bytesPerRow` bytes ends inside the buffer. */
  lemma RowInside(row: nat, h: nat, bytesPerRow: nat)
    requires row < h
    ensures row * bytesPerRow + bytesPerRow <= h * bytesPerRow
  {
    MulMono(row + 1, h, bytesPerRow);
  }

  /** Slot `(row, column)` of a row-major array with rows of length `n`. */
  function Index(row: nat, column: nat, n: nat): nat
  {
    row * n + column
  }

  /** One more row of `n` makes `m * n`. */
  lemma RowsSucc(m: nat, n: nat)
    requires m > 0
    ensures (m - 1) * n + n == m * n
  {
  }

  /** The slots of `m` rows of `n` columns are the indices below `m * n`. */
  lemma IndexInside(row: nat, column: nat, m: nat, n: nat)
    requires row < m && column < n
    ensures Index(row, column, n) < m * n
  {
    RowInside(row, m, n);
  }
}
