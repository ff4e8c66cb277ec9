/** The `CVPixelBuffer` extension of the depth-map screen: reading one decoded value out of a
    locked, row-major, stride-padded pixel buffer (`sample(location:)`), and the three bulk
    extractors `toFlatArray`, `toFlatArray2` and `toArray`, which walk the buffer with the same
    decode rule but with different index ranges. */
module DepthBuffer {
  import opened Wrappers
  import opened Memory

  /** The four bytes of a `Float` (IEEE-754 single precision) in memory order. */
  type Bytes4 = s: seq<Byte> | |s| == 4 witness [0, 0, 0, 0]

  /** The pixel formats the extension tells apart; any other one is carried by its code. */
  datatype PixelFormat = DepthFloat32 | BGRA32 | OtherFormat(code: int)

  /** A `Float` as the extension produces it. A depth value is read straight out of the buffer,
      so it is kept as the four bytes it is stored in (its IEEE decoding is not modelled); a value
      the code computes, an 8-bit channel divided by 255 or the filler 0, is kept exactly. */
  datatype Float = Stored(bits: Bytes4) | Exact(value: real)

  /** `simd_float4`, the result of `sample`. */
  datatype Float4 = Float4(x: Float, y: Float, z: Float, w: Float)

  /** `simd_float2`: a location as fractions of the image's width and height. */
  datatype Location = Location(x: real, y: real)

  /** A pixel buffer: its dimensions, its row stride in bytes (rows may be padded), its pixel
      format and the bytes its base address points to while it is locked. */
  datatype Buffer = Buffer(width: nat, height: nat, bytesPerRow: nat, format: PixelFormat, bytes: seq<Byte>)

  const Zero: Float := Exact(0.0)

  predicate Supported(f: PixelFormat)
  {
    f.DepthFloat32? || f.BGRA32?
  }

  /** What CoreVideo guarantees about a buffer's memory: `height` rows of `bytesPerRow` bytes,
      and, in the two formats the extension reads, rows wide enough for `width` 4-byte pixels. */
  predicate WellFormed(b: Buffer)
  {
    && b.height * b.bytesPerRow <= |b.bytes|
    && (Supported(b.format) ==> 4 * b.width <= b.bytesPerRow)
  }

  function Min(a: int, b: int): int
  {
    if a < b then a else b
  }

  // ---------------------------------------------------------------------------------------------
  // Address arithmetic and decoding

  /** The stride of the type the row pointer is bound to: `Float` for depth, `UInt8` for BGRA. */
  function ElementSize(f: PixelFormat): nat
    requires Supported(f)
  {
    if f.DepthFloat32? then 4 else 1
  }

  /** The byte offset `typed[column]` reads: the row start `row * bytesPerRow`, then `column`
      elements of the bound type. The read lies inside the buffer. */
  function Offset(b: Buffer, column: nat, row: nat): (offset: nat)
    requires WellFormed(b) && Supported(b.format)
    requires column < b.width && row < b.height
    ensures b.format.DepthFloat32? ==> offset == row * b.bytesPerRow + 4 * column
    ensures b.format.BGRA32? ==> offset == row * b.bytesPerRow + column
    ensures offset + ElementSize(b.format) <= |b.bytes|
  {
    RowInside(row, b.height, b.bytesPerRow);
    row * b.bytesPerRow + column * ElementSize(b.format)
  }

  /** The per-format decode rule shared by `sample` and the extractors: the stored `Float` of
      a depth buffer unchanged, a BGRA byte divided by 255, and nothing for other formats. */
  function Read(b: Buffer, column: nat, row: nat): (v: Option<Float>)
    requires WellFormed(b) && column < b.width && row < b.height
    ensures v.Some? <==> Supported(b.format)
    ensures b.format.DepthFloat32? ==>
      v.value.Stored? && v.value.bits == b.bytes[Offset(b, column, row)..Offset(b, column, row) + 4]
    ensures b.format.BGRA32? ==>
      && v.value.Exact?
      && 0.0 <= v.value.value <= 1.0
      && v.value.value * 255.0 == b.bytes[Offset(b, column, row)] as real
  {
    match b.format
    case DepthFloat32 =>
      var offset := Offset(b, column, row);
      Some(Stored(b.bytes[offset..offset + 4]))
    case BGRA32 =>
      Some(Exact(b.bytes[Offset(b, column, row)] as real / 255.0))
    case OtherFormat(_) =>
      None
  }

  /** Distinct pixels of a depth buffer occupy disjoint four-byte ranges. */
  lemma DepthPixelsDisjoint(b: Buffer, c1: nat, r1: nat, c2: nat, r2: nat)
    requires WellFormed(b) && b.format.DepthFloat32?
    requires c1 < b.width && r1 < b.height && c2 < b.width && r2 < b.height
    requires c1 != c2 || r1 != r2
    ensures Offset(b, c1, r1) + 4 <= Offset(b, c2, r2) || Offset(b, c2, r2) + 4 <= Offset(b, c1, r1)
  {
    if r1 < r2 {
      MulMono(r1 + 1, r2, b.bytesPerRow);
    } else if r2 < r1 {
      MulMono(r2 + 1, r1, b.bytesPerRow);
    }
  }

  // ---------------------------------------------------------------------------------------------
  // sample(location:)

  /** `Int32(_:)` of a float: truncation toward zero. */
  function Truncate(v: real): (n: int)
    ensures 0.0 <= v ==> n as real <= v < n as real + 1.0
    ensures v < 0.0 ==> n as real - 1.0 < v <= n as real
  {
    if v >= 0.0 then v.Floor else -((-v).Floor)
  }

  /** `clamp(v, min: 0, max: hi)`, that is `min(max(v, 0), hi)`. */
  function Clamp(v: int, hi: nat): (c: nat)
    ensures c <= hi
    ensures 0 <= v <= hi ==> c == v
    ensures v < 0 ==> c == 0
    ensures hi < v ==> c == hi
  {
    var atLeastZero := if v < 0 then 0 else v;
    if atLeastZero > hi then hi else atLeastZero
  }

  /** `clamp(p, min: .zero, max: pixelSize &- simd_int2(1, 1))`: the (column, row) read for the
      integer pixel position (px, py). A position inside the buffer reads its own pixel; one
      outside reads the nearest edge pixel, so clamping takes the place of failure. */
  function ClampToBuffer(b: Buffer, px: int, py: int): (p: (nat, nat))
    requires b.width > 0 && b.height > 0
    ensures p.0 < b.width && p.1 < b.height
    ensures 0 <= px < b.width ==> p.0 == px
    ensures px < 0 ==> p.0 == 0
    ensures b.width <= px ==> p.0 == b.width - 1
    ensures 0 <= py < b.height ==> p.1 == py
    ensures py < 0 ==> p.1 == 0
    ensures b.height <= py ==> p.1 == b.height - 1
  {
    (Clamp(px, b.width - 1), Clamp(py, b.height - 1))
  }

  /** The (column, row) `sample` reads for the pixel position (px, py) = location * (width,
      height): truncated toward zero, then clamped. Inside the buffer that is the pixel under the
      position; outside it, the nearest edge pixel. */
  function PixelAt(b: Buffer, px: real, py: real): (p: (nat, nat))
    requires b.width > 0 && b.height > 0
    ensures p.0 < b.width && p.1 < b.height
    ensures 0.0 <= px < b.width as real ==> p.0 == px.Floor
    ensures px < 0.0 ==> p.0 == 0
    ensures b.width as real <= px ==> p.0 == b.width - 1
    ensures 0.0 <= py < b.height as real ==> p.1 == py.Floor
    ensures py < 0.0 ==> p.1 == 0
    ensures b.height as real <= py ==> p.1 == b.height - 1
  {
    ClampToBuffer(b, Truncate(px), Truncate(py))
  }

  /** `sample(location:)`. `locked` is whether `CVPixelBufferLockBaseAddress` returned
      `noErr`; a successful lock is taken to give the buffer's memory. No value for an empty buffer (checked before locking), a failed lock or an
      unsupported format; otherwise lane 0 holds the decoded pixel at `location * (width,
      height)` and the other lanes are 0. */
  function Sample(b: Buffer, locked: bool, location: Location): (s: Option<Float4>)
    requires WellFormed(b)
    ensures s.Some? <==> b.width > 0 && b.height > 0 && locked && Supported(b.format)
    ensures s.Some? ==>
      var p := PixelAt(b, location.x * b.width as real, location.y * b.height as real);
      s.value == Float4(Read(b, p.0, p.1).value, Zero, Zero, Zero)
  {
    if b.width == 0 || b.height == 0 then None
    else if !locked then None
    else
      var p := PixelAt(b, location.x * b.width as real, location.y * b.height as real);
      match Read(b, p.0, p.1)
      case Some(v) => Some(Float4(v, Zero, Zero, Zero))
      case None => None
  }

  /** On a 4x4 buffer the location (1.5, -0.2) reads pixel (3, 0). */
  lemma SampleClampsExample(b: Buffer)
    requires WellFormed(b) && b.width == 4 && b.height == 4 && Supported(b.format)
    ensures Sample(b, true, Location(1.5, -0.2)) == Some(Float4(Read(b, 3, 0).value, Zero, Zero, Zero))
  {
    assert PixelAt(b, 1.5 * 4.0, -0.2 * 4.0) == (3, 0);
  }

  /** Reading an integer position as a `Float` and truncating it back gives the integer. */
  lemma TruncateInt(n: int)
    ensures Truncate(n as real) == n
  {
  }

  /** Dividing by a nonzero width and multiplying back is exact on the reals. */
  lemma DivMulCancel(x: real, w: real)
    requires w != 0.0
    ensures (x / w) * w == x
  {
  }

  // ---------------------------------------------------------------------------------------------
  // The extractors

  /** What the extractors append for pixel (column, row): the decode rule of `sample`, with the
      filler 0 where `sample` gives no value. */
  function Decoded(b: Buffer, column: nat, row: nat): (v: Float)
    requires WellFormed(b) && column < b.width && row < b.height
    ensures Supported(b.format) ==> Some(v) == Read(b, column, row)
    ensures !Supported(b.format) ==> v == Zero
  {
    match Read(b, column, row)
    case Some(f) => f
    case None => Zero
  }

  /** The value an extractor appends at loop position (x, y): the pixel clamped into the
      buffer, decoded. */
  function Cell(b: Buffer, x: int, y: int): (v: Float)
    requires WellFormed(b) && b.width > 0 && b.height > 0
    ensures 1 <= x && 1 <= y ==> v == Decoded(b, Min(x, b.width - 1), Min(y, b.height - 1))
  {
    var p := ClampToBuffer(b, x, y);
    Decoded(b, p.0, p.1)
  }

  /** The values of row y at positions x = 1 .. n, in order. */
  function Line(b: Buffer, y: int, n: nat): (line: seq<Float>)
    requires WellFormed(b) && b.width > 0 && b.height > 0
    ensures |line| == n
  {
    if n == 0 then [] else Line(b, y, n - 1) + [Cell(b, n, y)]
  }

  /** Rows y = 1 .. m of n positions each, concatenated in row-major order. */
  function Grid(b: Buffer, m: nat, n: nat): (grid: seq<Float>)
    requires WellFormed(b) && b.width > 0 && b.height > 0
    ensures |grid| == m * n
  {
    if m == 0 then [] else RowsSucc(m, n); Grid(b, m - 1, n) + Line(b, m, n)
  }

  /** Rows y = 1 .. m of n positions each, one sequence per row. */
  function Lines(b: Buffer, m: nat, n: nat): (rows: seq<seq<Float>>)
    requires WellFormed(b) && b.width > 0 && b.height > 0
    ensures |rows| == m
    ensures forall r | 0 <= r < m :: |rows[r]| == n
  {
    if m == 0 then [] else Lines(b, m - 1, n) + [Line(b, m, n)]
  }

  lemma {:induction false} LineAt(b: Buffer, y: int, n: nat)
    requires WellFormed(b) && b.width > 0 && b.height > 0
    ensures |Line(b, y, n)| == n
    ensures forall i | 0 <= i < n :: Line(b, y, n)[i] == Cell(b, i + 1, y)
  {
    if n > 0 {
      LineAt(b, y, n - 1);
    }
  }

  /** Slot (r, c) of the grid, in row-major order, holds position (c + 1, r + 1). */
  lemma {:induction false} GridAt(b: Buffer, m: nat, n: nat)
    requires WellFormed(b) && b.width > 0 && b.height > 0
    ensures |Grid(b, m, n)| == m * n
    ensures forall r, c | 0 <= r < m && 0 <= c < n ::
      Index(r, c, n) < |Grid(b, m, n)| && Grid(b, m, n)[Index(r, c, n)] == Cell(b, c + 1, r + 1)
  {
    if m > 0 {
      GridAt(b, m - 1, n);
      LineAt(b, m, n);
      var g, line := Grid(b, m - 1, n), Line(b, m, n);
      assert Grid(b, m, n) == g + line;
      RowsSucc(m, n);
      forall r, c | 0 <= r < m && 0 <= c < n
        ensures Index(r, c, n) < |Grid(b, m, n)| && Grid(b, m, n)[Index(r, c, n)] == Cell(b, c + 1, r + 1)
      {
        IndexInside(r, c, m, n);
        if r < m - 1 {
          IndexInside(r, c, m - 1, n);
          assert Grid(b, m, n)[Index(r, c, n)] == g[Index(r, c, n)];
        } else {
          assert Index(r, c, n) == |g| + c;
          assert Grid(b, m, n)[Index(r, c, n)] == line[c];
        }
      }
    }
  }

  lemma {:induction false} LinesAt(b: Buffer, m: nat, n: nat)
    requires WellFormed(b) && b.width > 0 && b.height > 0
    ensures |Lines(b, m, n)| == m
    ensures forall r | 0 <= r < m :: Lines(b, m, n)[r] == Line(b, r + 1, n)
  {
    if m > 0 {
      LinesAt(b, m - 1, n);
    }
  }

  /** What `toFlatArray()` collects: positions x = 1 ... width of rows y = 1 ... height. */
  function FlatValues(b: Buffer): seq<Float>
    requires WellFormed(b) && b.width > 0 && b.height > 0
  {
    Grid(b, b.height, b.width)
  }

  /** `toFlatArray()`: empty for an empty buffer or a failed lock, the flat values otherwise. */
  method ToFlatArray(b: Buffer, locked: bool) returns (values: seq<Float>)
    requires WellFormed(b)
    ensures b.width == 0 || b.height == 0 || !locked ==> values == []
    ensures b.width > 0 && b.height > 0 && locked ==> values == FlatValues(b)
  {
    values := [];
    if b.width == 0 || b.height == 0 || !locked {
      return;
    }
    var y := 1;
    while y <= b.height
      invariant 1 <= y <= b.height + 1
      invariant values == Grid(b, y - 1, b.width)
    {
      var x := 1;
      while x <= b.width
        invariant 1 <= x <= b.width + 1
        invariant values == Grid(b, y - 1, b.width) + Line(b, y, x - 1)
      {
        var p := ClampToBuffer(b, x, y);
        values := values + [Decoded(b, p.0, p.1)];
        x := x + 1;
      }
      y := y + 1;
    }
  }

  /** The flat array has width * height slots, and slot (r, c) reads pixel (c + 1, r + 1)
      clamped to the last column and row: the first column and row are never read, and the
      last ones are read twice. */
  lemma FlatArraySlots(b: Buffer)
    requires WellFormed(b) && b.width > 0 && b.height > 0
    ensures |FlatValues(b)| == b.height * b.width
    ensures forall r, c | 0 <= r < b.height && 0 <= c < b.width ::
      && Index(r, c, b.width) < |FlatValues(b)|
      && FlatValues(b)[Index(r, c, b.width)] == Decoded(b, Min(c + 1, b.width - 1), Min(r + 1, b.height - 1))
  {
    var w, h := b.width, b.height;
    GridAt(b, h, w);
    forall r, c | 0 <= r < h && 0 <= c < w
      ensures FlatValues(b)[Index(r, c, w)] == Decoded(b, Min(c + 1, w - 1), Min(r + 1, h - 1))
    {
      assert Cell(b, c + 1, r + 1) == Decoded(b, Min(c + 1, w - 1), Min(r + 1, h - 1));
    }
  }

  /** With at least two columns, the last two slots of each row hold the same value. */
  lemma FlatArrayRepeatsLastColumn(b: Buffer, r: nat)
    requires WellFormed(b) && b.width >= 2 && b.height > 0 && r < b.height
    ensures Index(r, b.width - 1, b.width) < |FlatValues(b)|
    ensures FlatValues(b)[Index(r, b.width - 2, b.width)] == FlatValues(b)[Index(r, b.width - 1, b.width)]
  {
    FlatArraySlots(b);
    assert Index(r, b.width - 2, b.width) < |FlatValues(b)|;
  }

  /** With at least two rows, the last two rows hold the same values. */
  lemma FlatArrayRepeatsLastRow(b: Buffer, c: nat)
    requires WellFormed(b) && b.width > 0 && b.height >= 2 && c < b.width
    ensures Index(b.height - 1, c, b.width) < |FlatValues(b)|
    ensures FlatValues(b)[Index(b.height - 2, c, b.width)] == FlatValues(b)[Index(b.height - 1, c, b.width)]
  {
    FlatArraySlots(b);
    assert Index(b.height - 2, c, b.width) < |FlatValues(b)|;
  }

  /** Reading an integer position of the buffer as a `Float` gives its own pixel. */
  lemma PixelAtInteger(b: Buffer, x: int, y: int)
    requires b.width > 0 && b.height > 0
    ensures PixelAt(b, x as real, y as real) == ClampToBuffer(b, x, y)
  {
    TruncateInt(x);
    TruncateInt(y);
  }

  /** The value an extractor appends at loop position (x, y) is lane 0 of `sample` at any
      location that scales to that position, and so at (x / width, y / height). */
  lemma ExtractorsMatchSample(b: Buffer, x: int, y: int)
    requires WellFormed(b) && b.width > 0 && b.height > 0 && Supported(b.format)
    ensures forall location: Location | location.x * b.width as real == x as real && location.y * b.height as real == y as real ::
      Sample(b, true, location) == Some(Float4(Cell(b, x, y), Zero, Zero, Zero))
    ensures Sample(b, true, Location(x as real / b.width as real, y as real / b.height as real))
         == Some(Float4(Cell(b, x, y), Zero, Zero, Zero))
  {
    forall location: Location | location.x * b.width as real == x as real && location.y * b.height as real == y as real
      ensures Sample(b, true, location) == Some(Float4(Cell(b, x, y), Zero, Zero, Zero))
    {
      SampleAtPosition(b, x, y, location);
    }
    DivMulCancel(x as real, b.width as real);
    DivMulCancel(y as real, b.height as real);
    SampleAtPosition(b, x, y, Location(x as real / b.width as real, y as real / b.height as real));
  }

  lemma SampleAtPosition(b: Buffer, x: int, y: int, location: Location)
    requires WellFormed(b) && b.width > 0 && b.height > 0 && Supported(b.format)
    requires location.x * b.width as real == x as real && location.y * b.height as real == y as real
    ensures Sample(b, true, location) == Some(Float4(Cell(b, x, y), Zero, Zero, Zero))
  {
    PixelAtInteger(b, x, y);
    SampleReads(b, location, ClampToBuffer(b, x, y));
  }

  lemma SampleReads(b: Buffer, location: Location, p: (nat, nat))
    requires WellFormed(b) && b.width > 0 && b.height > 0 && Supported(b.format)
    requires p == PixelAt(b, location.x * b.width as real, location.y * b.height as real)
    ensures Sample(b, true, location) == Some(Float4(Read(b, p.0, p.1).value, Zero, Zero, Zero))
  {
  }

  /** Inside the buffer a loop position reads its own pixel. */
  lemma InteriorLine(b: Buffer, y: nat, n: nat)
    requires WellFormed(b) && b.width > 0 && b.height > 0
    requires 1 <= y < b.height && n < b.width
    ensures |Line(b, y, n)| == n
    ensures forall i | 0 <= i < n :: Line(b, y, n)[i] == Decoded(b, i + 1, y)
  {
    LineAt(b, y, n);
  }

  /** The four bytes `Data(bytes: &float, count: 4)` copies for a value: a stored depth value
      as it lies in the buffer, 0 as four zero bytes (its IEEE-754 encoding), and any other
      computed value as `encode` gives its in-memory bytes. */
  function BytesOf(v: Float, encode: real -> Bytes4): (bytes: Bytes4)
    ensures v.Stored? ==> bytes == v.bits
    ensures v == Zero ==> bytes == [0, 0, 0, 0]
  {
    match v
    case Stored(bits) => bits
    case Exact(r) => if r == 0.0 then [0, 0, 0, 0] else encode(r)
  }

  /** The bytes of a sequence of values, four per value, in order. */
  function Serialize(vs: seq<Float>, encode: real -> Bytes4): seq<Byte>
  {
    if |vs| == 0 then [] else Serialize(vs[..|vs| - 1], encode) + BytesOf(vs[|vs| - 1], encode)
  }

  lemma SerializeSnoc(vs: seq<Float>, v: Float, encode: real -> Bytes4)
    ensures Serialize(vs + [v], encode) == Serialize(vs, encode) + BytesOf(v, encode)
  {
    assert (vs + [v])[..|vs|] == vs;
  }

  lemma {:induction false} SerializeAppend(vs: seq<Float>, ws: seq<Float>, encode: real -> Bytes4)
    ensures Serialize(vs + ws, encode) == Serialize(vs, encode) + Serialize(ws, encode)
    decreases |ws|
  {
    if |ws| > 0 {
      var init := ws[..|ws| - 1];
      SerializeAppend(vs, init, encode);
      assert (vs + ws)[..|vs + ws| - 1] == vs + init;
    } else {
      assert vs + ws == vs;
    }
  }

  lemma {:induction false} SerializeLength(vs: seq<Float>, encode: real -> Bytes4)
    ensures |Serialize(vs, encode)| == 4 * |vs|
  {
    if |vs| > 0 {
      SerializeLength(vs[..|vs| - 1], encode);
    }
  }

  /** Byte k of the serialized values is byte k % 4 of value k / 4. */
  lemma {:induction false} SerializeAt(vs: seq<Float>, encode: real -> Bytes4)
    ensures |Serialize(vs, encode)| == 4 * |vs|
    ensures forall k | 0 <= k < 4 * |vs| :: Serialize(vs, encode)[k] == BytesOf(vs[k / 4], encode)[k % 4]
  {
    if |vs| > 0 {
      var init := vs[..|vs| - 1];
      SerializeAt(init, encode);
      forall k | 0 <= k < 4 * |vs|
        ensures Serialize(vs, encode)[k] == BytesOf(vs[k / 4], encode)[k % 4]
      {
        if k >= 4 * |init| {
          DivModSlot(|init|, k - 4 * |init|, 4);
        } else {
          assert vs[k / 4] == init[k / 4];
        }
      }
    }
  }

  /** The values `toFlatArray2()` and `toArray()` visit: positions x = 1 ... width - 1 of rows
      y = 1 ... height - 1. */
  function InteriorValues(b: Buffer): seq<Float>
    requires WellFormed(b) && b.width > 0 && b.height > 0
  {
    Grid(b, b.height - 1, b.width - 1)
  }

  /** The inner loop of `toFlatArray2()`: the bytes of positions x = 1 ... width - 1 of row
      y, in order. */
  method RowBytes(b: Buffer, y: int, encode: real -> Bytes4) returns (bytes: seq<Byte>)
    requires WellFormed(b) && b.width > 0 && b.height > 0
    ensures bytes == Serialize(Line(b, y, b.width - 1), encode)
  {
    bytes := [];
    for x := 1 to b.width
      invariant bytes == Serialize(Line(b, y, x - 1), encode)
    {
      var p := ClampToBuffer(b, x, y);
      var v := Decoded(b, p.0, p.1);
      SerializeSnoc(Line(b, y, x - 1), v, encode);
      bytes := bytes + BytesOf(v, encode);
    }
  }

  /** `toFlatArray2()`: empty for an empty buffer or a failed lock, otherwise the four bytes
      of each interior value in turn. */
  method ToFlatArray2(b: Buffer, locked: bool, encode: real -> Bytes4) returns (data: seq<Byte>)
    requires WellFormed(b)
    ensures b.width == 0 || b.height == 0 || !locked ==> data == []
    ensures b.width > 0 && b.height > 0 && locked ==> data == Serialize(InteriorValues(b), encode)
  {
    data := [];
    if b.width == 0 || b.height == 0 || !locked {
      return;
    }
    for y := 1 to b.height
      invariant data == Serialize(Grid(b, y - 1, b.width - 1), encode)
    {
      var row := RowBytes(b, y, encode);
      SerializeAppend(Grid(b, y - 1, b.width - 1), Line(b, y, b.width - 1), encode);
      data := data + row;
    }
  }

  /** Rows one after another. */
  function Flatten<T>(rows: seq<seq<T>>): seq<T>
  {
    if |rows| == 0 then [] else Flatten(rows[..|rows| - 1]) + rows[|rows| - 1]
  }

  lemma FlattenSnoc<T>(rows: seq<seq<T>>, row: seq<T>)
    ensures Flatten(rows + [row]) == Flatten(rows) + row
  {
    assert (rows + [row])[..|rows|] == rows;
  }

  lemma {:induction false} GridFlattensLines(b: Buffer, m: nat, n: nat)
    requires WellFormed(b) && b.width > 0 && b.height > 0
    ensures Grid(b, m, n) == Flatten(Lines(b, m, n))
  {
    if m > 0 {
      GridFlattensLines(b, m - 1, n);
      FlattenSnoc(Lines(b, m - 1, n), Line(b, m, n));
    }
  }

  /** The exported values are every interior pixel once, row by row: the rows of `toArray()`
      one after another, (width - 1) * (height - 1) values of four bytes each. */
  lemma InteriorSlots(b: Buffer, encode: real -> Bytes4)
    requires WellFormed(b) && b.width > 0 && b.height > 0
    ensures InteriorValues(b) == Flatten(InteriorRows(b))
    ensures |InteriorValues(b)| == (b.height - 1) * (b.width - 1)
    ensures |Serialize(InteriorValues(b), encode)| == 4 * |InteriorValues(b)|
  {
    GridFlattensLines(b, b.height - 1, b.width - 1);
    SerializeLength(InteriorValues(b), encode);
  }

  lemma {:induction false} GridOfUnsupported(b: Buffer, m: nat, n: nat)
    requires WellFormed(b) && b.width > 0 && b.height > 0 && !Supported(b.format)
    ensures forall i | 0 <= i < |Grid(b, m, n)| :: Grid(b, m, n)[i] == Zero
  {
    if m > 0 {
      GridOfUnsupported(b, m - 1, n);
      LineAt(b, m, n);
    }
  }

  lemma {:induction false} SerializeOfZeros(vs: seq<Float>, encode: real -> Bytes4)
    requires forall i | 0 <= i < |vs| :: vs[i] == Zero
    ensures forall k | 0 <= k < |Serialize(vs, encode)| :: Serialize(vs, encode)[k] == 0
  {
    if |vs| > 0 {
      SerializeOfZeros(vs[..|vs| - 1], encode);
    }
  }

  /** A buffer of any other pixel format exports only zero bytes, as many as a supported one
      of the same size. */
  lemma ExportOfUnsupported(b: Buffer, encode: real -> Bytes4)
    requires WellFormed(b) && b.width > 0 && b.height > 0 && !Supported(b.format)
    ensures |Serialize(InteriorValues(b), encode)| == 4 * ((b.height - 1) * (b.width - 1))
    ensures forall k | 0 <= k < |Serialize(InteriorValues(b), encode)| :: Serialize(InteriorValues(b), encode)[k] == 0
  {
    InteriorSlots(b, encode);
    GridOfUnsupported(b, b.height - 1, b.width - 1);
    SerializeOfZeros(InteriorValues(b), encode);
  }

  /** What `toArray()` collects: one row per y = 1 ... height - 1, of the values at positions
      x = 1 ... width - 1. */
  function InteriorRows(b: Buffer): seq<seq<Float>>
    requires WellFormed(b) && b.width > 0 && b.height > 0
  {
    Lines(b, b.height - 1, b.width - 1)
  }

  /** `toArray()`: empty for an empty buffer or a failed lock, the interior rows otherwise. */
  method ToArray(b: Buffer, locked: bool) returns (rows: seq<seq<Float>>)
    requires WellFormed(b)
    ensures b.width == 0 || b.height == 0 || !locked ==> rows == []
    ensures b.width > 0 && b.height > 0 && locked ==> rows == InteriorRows(b)
  {
    rows := [];
    if b.width == 0 || b.height == 0 || !locked {
      return;
    }
    var y := 1;
    while y < b.height
      invariant 1 <= y <= b.height
      invariant rows == Lines(b, y - 1, b.width - 1)
    {
      var line := [];
      var x := 1;
      while x < b.width
        invariant 1 <= x <= b.width
        invariant line == Line(b, y, x - 1)
      {
        var p := ClampToBuffer(b, x, y);
        line := line + [Decoded(b, p.0, p.1)];
        x := x + 1;
      }
      rows := rows + [line];
      y := y + 1;
    }
  }

  /** `toArray()` holds height - 1 rows of width - 1 values, entry [r][c] being pixel
      (c + 1, r + 1): the same values as the exported bytes, row by row. */
  lemma ArrayRows(b: Buffer)
    requires WellFormed(b) && b.width > 0 && b.height > 0
    ensures |InteriorRows(b)| == b.height - 1
    ensures forall r | 0 <= r < b.height - 1 :: |InteriorRows(b)[r]| == b.width - 1
    ensures forall r, c | 0 <= r < b.height - 1 && 0 <= c < b.width - 1 ::
      InteriorRows(b)[r][c] == Decoded(b, c + 1, r + 1)
  {
    var m, n := b.height - 1, b.width - 1;
    LinesAt(b, m, n);
    forall r | 0 <= r < m
      ensures |InteriorRows(b)[r]| == n
      ensures forall c | 0 <= c < n :: InteriorRows(b)[r][c] == Decoded(b, c + 1, r + 1)
    {
      InteriorLine(b, r + 1, n);
    }
  }
}
