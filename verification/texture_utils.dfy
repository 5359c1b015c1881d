/**
 * `flipBufferY` of src/TextureUtils.js:22-37 and the pixel readback of its
 * two callers. The buffer holds RGBA pixels row after row, four bytes per
 * pixel, so byte c of row r is byte r·width·4 + c.
 *
 * The loop as written pairs row y with row height - y instead of
 * height - 1 - y: it shifts every row but the first by one and zeroes the
 * first (see "Findings" in the README). `FlipBufferYAsWritten` models the
 * code as written; `FlipBufferY` is the evident intention, a reversal of
 * the rows, and is the one the readback uses.
 */
module TextureUtils {
  /** An element of a `Uint8Array`. */
  newtype Byte = b: int | 0 <= b < 256

  /**
   * Where row r begins when each row holds `stride` bytes: r·stride, summed row by row.
   * `TubeMesh.RingStart` has the same shape; this module stands alone and imports
   * nothing from the LineGeometry model, so it keeps its own copy.
   */
  function RowStart(r: nat, stride: nat): nat
  {
    if r == 0 then 0 else RowStart(r - 1, stride) + stride
  }

  /** Byte c of row r of an RGBA image `width` pixels wide. */
  function Offset(r: nat, c: nat, width: nat): nat
  {
    RowStart(r, width * 4) + c
  }

  /** A typed-array read: past the end it gives `undefined`, which a `Uint8Array` stores as 0. */
  function Read(s: seq<Byte>, k: nat): Byte
  {
    if k < |s| then s[k] else 0
  }

  /** Byte c of row r, read as a typed array reads it. */
  function At(s: seq<Byte>, r: nat, c: nat, width: nat): Byte
  {
    Read(s, Offset(r, c, width))
  }

  /** A typed-array write: past the end it is ignored. */
  function Write(s: seq<Byte>, k: nat, v: Byte): (s': seq<Byte>)
    ensures |s'| == |s|
  {
    if k < |s| then s[k := v] else s
  }

  /** One pass of the innermost loop: read both bytes, then store each at the other's place. */
  function Exchange(s: seq<Byte>, top: nat, bottom: nat): (s': seq<Byte>)
    ensures |s'| == |s|
  {
    Write(Write(s, top, Read(s, bottom)), bottom, Read(s, top))
  }

  /**
   * The first n exchanges of one row pass, between the spans that begin at
   * `top` and `bottom` (disjoint, or the same span): the first span gets
   * what the second held, 0 past the end of the buffer, the second what the
   * first held, and nothing else changes.
   */
  function Swapped(s: seq<Byte>, top: nat, bottom: nat, n: nat): (s': seq<Byte>)
    ensures |s'| == |s|
  {
    seq(|s|, k requires 0 <= k < |s| =>
      if top <= k < top + n then Read(s, bottom + (k - top))
      else if bottom <= k < bottom + n then Read(s, top + (k - bottom))
      else s[k])
  }

  /** The row exchanged with row y: height - y as written, height - 1 - y as intended. */
  function Partner(height: nat, y: nat, intended: bool): nat
    requires y < height
  {
    if intended then height - 1 - y else height - y
  }

  /** The first n passes of the outer loop: pass y exchanges row y with its partner. */
  function Passes(s: seq<Byte>, width: nat, height: nat, n: nat, intended: bool): (s': seq<Byte>)
    requires n <= height
    ensures |s'| == |s|
  {
    if n == 0 then s
    else
      var y := n - 1;
      Swapped(Passes(s, width, height, y, intended), Offset(y, 0, width), Offset(Partner(height, y, intended), 0, width), width * 4)
  }

  /** `y < height / 2` holds for y = 0 .. (height + 1) / 2 - 1. */
  function PassCount(height: nat): nat
  {
    (height + 1) / 2
  }

  /** The buffer after `flipBufferY` as written. */
  function FlipAsWritten(s: seq<Byte>, width: nat, height: nat): seq<Byte>
  {
    Passes(s, width, height, PassCount(height), false)
  }

  /** The buffer after `flipBufferY` as intended. */
  function Flipped(s: seq<Byte>, width: nat, height: nat): seq<Byte>
  {
    Passes(s, width, height, PassCount(height), true)
  }

  // ---------------------------------------------------------------------
  // The loops.
  // ---------------------------------------------------------------------

  /**
   * The middle loop of one pass: for each pixel x, exchange its four bytes
   * in row y with the same bytes of row `partner`, reading and writing as a
   * `Uint8Array` does.
   */
  method ExchangeRows(buffer: array<Byte>, width: nat, y: nat, partner: nat)
    requires y <= partner
    modifies buffer
    ensures buffer[..] == Swapped(old(buffer[..]), Offset(y, 0, width), Offset(partner, 0, width), width * 4)
  {
    ghost var s := buffer[..];
    ghost var top0, bottom0 := Offset(y, 0, width), Offset(partner, 0, width);
    RowStartIsProduct(y, width);
    RowStartIsProduct(partner, width);
    if y < partner {
      RowsOrdered(y + 1, partner, width);
    }
    for x := 0 to width
      invariant buffer[..] == Swapped(s, top0, bottom0, x * 4)
    {
      var top := x * 4 + y * width * 4;
      var bottom := x * 4 + partner * width * 4;
      ExchangePixel(buffer, top, bottom, s, top0, bottom0, x * 4);
    }
  }

  /** The innermost loop: exchange the four bytes of one pixel, one after another. */
  method ExchangePixel(buffer: array<Byte>, top: nat, bottom: nat, ghost s: seq<Byte>, ghost top0: nat, ghost bottom0: nat, ghost n: nat)
    requires top == top0 + n && bottom == bottom0 + n && (top0 + n + 4 <= bottom0 || top0 == bottom0)
    requires buffer[..] == Swapped(s, top0, bottom0, n)
    modifies buffer
    ensures buffer[..] == Swapped(s, top0, bottom0, n + 4)
  {
    for i := 0 to 4
      invariant buffer[..] == Swapped(s, top0, bottom0, n + i)
    {
      ghost var u := buffer[..];
      var t := if top + i < buffer.Length then buffer[top + i] else 0;
      var b := if bottom + i < buffer.Length then buffer[bottom + i] else 0;
      if top + i < buffer.Length {
        buffer[top + i] := b;
      }
      if bottom + i < buffer.Length {
        buffer[bottom + i] := t;
      }
      assert buffer[..] == Exchange(u, top + i, bottom + i);
      SwappedStep(s, top0, bottom0, n + i);
    }
  }

  /** `flipBufferY` as written: row y is exchanged with row height - y. */
  method FlipBufferYAsWritten(buffer: array<Byte>, width: nat, height: nat)
    modifies buffer
    ensures buffer[..] == FlipAsWritten(old(buffer[..]), width, height)
  {
    ghost var s := buffer[..];
    var y := 0;
    while 2 * y < height
      invariant y <= PassCount(height)
      invariant buffer[..] == Passes(s, width, height, y, false)
    {
      ExchangeRows(buffer, width, y, height - y);
      y := y + 1;
    }
  }

  /** `flipBufferY` as intended: row y is exchanged with row height - 1 - y. */
  method FlipBufferY(buffer: array<Byte>, width: nat, height: nat)
    modifies buffer
    ensures buffer[..] == Flipped(old(buffer[..]), width, height)
  {
    ghost var s := buffer[..];
    var y := 0;
    while 2 * y < height
      invariant y <= PassCount(height)
      invariant buffer[..] == Passes(s, width, height, y, true)
    {
      ExchangeRows(buffer, width, y, height - 1 - y);
      y := y + 1;
    }
  }

  /**
   * The readback of `renderTargetToDataURL` and `textureToDataURL`: a
   * buffer of width·height·4 bytes, filled by the renderer with `pixels`,
   * then flipped only when the texture's `flipY` is set.
   */
  method ReadBack(pixels: seq<Byte>, width: nat, height: nat, flipY: bool) returns (buffer: array<Byte>)
    requires |pixels| == width * height * 4
    ensures fresh(buffer) && buffer.Length == width * height * 4
    ensures buffer[..] == if flipY then Flipped(pixels, width, height) else pixels
  {
    buffer := new Byte[width * height * 4](k requires 0 <= k < |pixels| => pixels[k]);
    assert buffer[..] == pixels;
    if flipY {
      FlipBufferY(buffer, width, height);
    }
  }

  // ---------------------------------------------------------------------
  // Row arithmetic.
  // ---------------------------------------------------------------------

  /** The row start the source computes as y * width * 4. */
  lemma {:induction false} RowStartIsProduct(y: nat, width: nat)
    ensures Offset(y, 0, width) == y * width * 4
  {
    if y > 0 {
      RowStartIsProduct(y - 1, width);
      assert y * width * 4 == (y - 1) * width * 4 + width * 4;
    }
  }

  /** A buffer of width·height·4 bytes holds exactly `height` rows. */
  lemma BufferSize(width: nat, height: nat)
    ensures Offset(height, 0, width) == width * height * 4
  {
    RowStartIsProduct(height, width);
    assert height * width * 4 == width * height * 4;
  }

  lemma {:induction false} RowsOrdered(a: nat, b: nat, width: nat)
    requires a <= b
    ensures Offset(a, 0, width) <= Offset(b, 0, width)
    decreases b
  {
    if a < b {
      RowsOrdered(a, b - 1, width);
    }
  }

  /** Byte c < width·4 of row r lies in the span of row y exactly when r = y. */
  lemma RowSpan(r: nat, c: nat, y: nat, width: nat)
    requires c < width * 4
    ensures Offset(y, 0, width) <= Offset(r, c, width) < Offset(y + 1, 0, width) <==> r == y
  {
    if r < y {
      RowsOrdered(r + 1, y, width);
    } else if r > y {
      RowsOrdered(y + 1, r, width);
    }
  }

  /** Every byte of a buffer of `height` rows is byte c < width·4 of some row r < height. */
  lemma {:induction false} RowOf(k: nat, width: nat, height: nat) returns (r: nat, c: nat)
    requires k < Offset(height, 0, width)
    ensures r < height && c < width * 4 && k == Offset(r, c, width)
    decreases height
  {
    if k < Offset(height - 1, 0, width) {
      r, c := RowOf(k, width, height - 1);
    } else {
      r, c := height - 1, k - Offset(height - 1, 0, width);
    }
  }

  // ---------------------------------------------------------------------
  // What the loops compute.
  // ---------------------------------------------------------------------

  /** One more pass of the innermost loop exchanges one more pair of bytes. */
  lemma SwappedStep(s: seq<Byte>, top: nat, bottom: nat, n: nat)
    requires top + n + 1 <= bottom || top == bottom
    ensures Swapped(s, top, bottom, n + 1) == Exchange(Swapped(s, top, bottom, n), top + n, bottom + n)
  {
    var u := Swapped(s, top, bottom, n);
    var e := Exchange(u, top + n, bottom + n);
    var v := Swapped(s, top, bottom, n + 1);
    forall k | 0 <= k < |s| ensures v[k] == e[k] {
      if k == top + n {
        assert v[k] == Read(s, bottom + n);
        assert e[k] == Read(u, bottom + n);
      } else if k == bottom + n {
        assert v[k] == Read(s, top + n);
        assert e[k] == Read(u, top + n);
      } else {
        assert e[k] == u[k];
      }
    }
  }

  /** Byte c < width·4 of row r < height lies inside a buffer of `height` rows. */
  lemma InBuffer(r: nat, c: nat, width: nat, height: nat)
    requires r < height && c < width * 4
    ensures Offset(r, c, width) < Offset(height, 0, width)
  {
    RowSpan(r, c, r, width);
    RowsOrdered(r + 1, height, width);
  }

  /**
   * One pass of the outer loop exchanges row y with row p >= y: row y
   * receives row p (0 past the end of the buffer), row p receives row y,
   * and every other row keeps its bytes.
   */
  lemma RowExchange(u: seq<Byte>, width: nat, height: nat, y: nat, p: nat, r: nat, c: nat)
    requires |u| == Offset(height, 0, width) && y <= p && y < height && r < height && c < width * 4
    ensures At(Swapped(u, Offset(y, 0, width), Offset(p, 0, width), width * 4), r, c, width)
              == if r == y then At(u, p, c, width) else if r == p then At(u, y, c, width) else At(u, r, c, width)
  {
    InBuffer(r, c, width, height);
    RowSpan(r, c, y, width);
    if p != y {
      RowsOrdered(y + 1, p, width);
      RowSpan(r, c, p, width);
    }
  }

  /**
   * After n passes, byte c of row r holds byte c of the partner row of r
   * (0 past the end) once r or its partner has had its pass, and is
   * unchanged otherwise.
   */
  lemma {:induction false} PassesAt(s: seq<Byte>, width: nat, height: nat, n: nat, intended: bool, r: nat, c: nat)
    requires |s| == Offset(height, 0, width) && n <= PassCount(height) && r < height && c < width * 4
    ensures var m := Partner(height, r, intended);
            At(Passes(s, width, height, n, intended), r, c, width) == if r < n || m < n then At(s, m, c, width) else At(s, r, c, width)
  {
    InBuffer(r, c, width, height);
    if n > 0 {
      var y := n - 1;
      var p := Partner(height, y, intended);
      var u := Passes(s, width, height, y, intended);
      PassesAt(s, width, height, y, intended, r, c);
      RowExchange(u, width, height, y, p, r, c);
      if r == y && p < height {
        PassesAt(s, width, height, y, intended, p, c);
      }
      if r == p && r != y {
        PassesAt(s, width, height, y, intended, y, c);
      }
    }
  }

  /**
   * `flipBufferY` as written: the first row comes out all zeros, and every
   * other row r holds what row height - r held.
   */
  lemma FlipAsWrittenRows(s: seq<Byte>, width: nat, height: nat, r: nat, c: nat)
    requires |s| == width * height * 4 && r < height && c < width * 4
    ensures At(FlipAsWritten(s, width, height), r, c, width) == if r == 0 then 0 else At(s, height - r, c, width)
  {
    BufferSize(width, height);
    PassesAt(s, width, height, PassCount(height), false, r, c);
  }

  /** `flipBufferY` as intended: row r holds what row height - 1 - r held. */
  lemma FlippedRows(s: seq<Byte>, width: nat, height: nat, r: nat, c: nat)
    requires |s| == width * height * 4 && r < height && c < width * 4
    ensures At(Flipped(s, width, height), r, c, width) == At(s, height - 1 - r, c, width)
  {
    BufferSize(width, height);
    PassesAt(s, width, height, PassCount(height), true, r, c);
  }

  /** Flipping twice as intended gives back the original buffer. */
  lemma FlippedTwice(s: seq<Byte>, width: nat, height: nat)
    requires |s| == width * height * 4
    ensures Flipped(Flipped(s, width, height), width, height) == s
  {
    var once := Flipped(s, width, height);
    var twice := Flipped(once, width, height);
    BufferSize(width, height);
    forall k | 0 <= k < |s| ensures twice[k] == s[k] {
      var r, c := RowOf(k, width, height);
      FlippedRows(s, width, height, height - 1 - r, c);
      FlippedRows(once, width, height, r, c);
    }
  }

  /**
   * Flipping twice as written restores every row but the first, and leaves
   * the first all zeros: the first row's content is lost.
   */
  lemma FlipAsWrittenTwice(s: seq<Byte>, width: nat, height: nat, r: nat, c: nat)
    requires |s| == width * height * 4 && r < height && c < width * 4
    ensures var twice := FlipAsWritten(FlipAsWritten(s, width, height), width, height);
            At(twice, r, c, width) == if r == 0 then 0 else At(s, r, c, width)
  {
    var once := FlipAsWritten(s, width, height);
    FlipAsWrittenRows(s, width, height, r, c);
    FlipAsWrittenRows(once, width, height, r, c);
    if r > 0 {
      FlipAsWrittenRows(s, width, height, height - r, c);
    }
  }

  /**
   * One pixel wide and two rows high, bytes 1 .. 8: as written, the first
   * row becomes zeros and the second keeps its bytes; as intended the two
   * rows trade places.
   */
  lemma FlipAsWrittenCounterexample(s: seq<Byte>, width: nat, height: nat)
    requires s == [1, 2, 3, 4, 5, 6, 7, 8] && width == 1 && height == 2
    ensures FlipAsWritten(s, width, height) == [0, 0, 0, 0, 5, 6, 7, 8]
    ensures Flipped(s, width, height) == [5, 6, 7, 8, 1, 2, 3, 4]
  {
    var a := FlipAsWritten(s, width, height);
    var f := Flipped(s, width, height);
    forall k | 0 <= k < 8 ensures a[k] == [0, 0, 0, 0, 5, 6, 7, 8][k] && f[k] == [5, 6, 7, 8, 1, 2, 3, 4][k] {
      TwoRowsColumn(s, k % 4);
    }
  }

  /** Column c of a buffer one pixel wide and two rows high, flipped either way. */
  lemma TwoRowsColumn(s: seq<Byte>, c: nat)
    requires |s| == 8 && c < 4
    ensures var a, f := FlipAsWritten(s, 1, 2), Flipped(s, 1, 2);
            a[c] == 0 && a[4 + c] == s[4 + c] && f[c] == s[4 + c] && f[4 + c] == s[c]
  {
    assert Offset(0, c, 1) == c && Offset(1, c, 1) == 4 + c && Offset(2, 0, 1) == 8;
    FlipAsWrittenRows(s, 1, 2, 0, c);
    FlipAsWrittenRows(s, 1, 2, 1, c);
    FlippedRows(s, 1, 2, 0, c);
    FlippedRows(s, 1, 2, 1, c);
  }
}
