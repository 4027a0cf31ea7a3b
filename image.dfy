/** Row-major addressing shared by the whole model: the pixel in column x and
    row y of an image `w` pixels wide lives at index y * w + x of its buffer. */
module Image {

  /** One 8-bit sample (`unsigned char`, `stbi_uc`). */
  type byte = x: int | 0 <= x < 256

  lemma MulMono(a: nat, b: nat, c: nat)
    requires a <= b
    ensures a * c <= b * c
  {
  }

  lemma MulAssoc(a: int, b: int, c: int)
    ensures a * b * c == a * (b * c)
  {
  }

  /** A cell address with x < w and y < h stays inside a w-by-h buffer. */
  lemma IndexInBounds(w: nat, h: nat, x: nat, y: nat)
    requires x < w && y < h
    ensures y * w + x < w * h
  {
    MulMono(y + 1, h, w);
  }

  /** Row y + 1 of a w-by-h buffer starts w cells after row y, and row y
      ends inside the buffer. */
  lemma NextRow(w: nat, h: nat, y: nat)
    requires y < h
    ensures (y + 1) * w == y * w + w && y * w + w <= w * h
  {
    MulMono(y + 1, h, w);
  }

  /** After the last row the running address has reached the end of the
      buffer. */
  lemma LastRow(w: nat, h: nat, y: nat, k: nat)
    requires y == h && k == y * w
    ensures k == w * h
  {
  }

  /** The row and the column of a cell come back from its address by division
      and remainder. */
  lemma RowCol(w: nat, x: nat, y: nat)
    requires x < w
    ensures (y * w + x) / w == y && (y * w + x) % w == x
  {
    var k := y * w + x;
    var q, r := k / w, k % w;
    assert k == q * w + r;
    if q < y {
      MulMono(q + 1, y, w);
      assert false;
    } else if q > y {
      MulMono(y + 1, q, w);
      assert false;
    }
  }

  /** Every address of a w-by-h buffer is the address of a cell: its row is
      below h and its column below w. */
  lemma CellOf(w: nat, h: nat, k: nat)
    requires k < w * h
    ensures 0 < w && k / w < h && k % w < w && k == (k / w) * w + k % w
  {
    if k / w >= h {
      MulMono(h, k / w, w);
      assert false;
    }
  }
}
