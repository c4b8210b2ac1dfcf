/** The image-button bitmap builder: a `width` by `height` RGB565 picture,
    row by row, each pixel a little-endian 16-bit word; a three-pixel frame
    in white (grey when pressed) around a light-blue (dark-blue when
    pressed) face. */
module ButtonImage {
  import opened Base

  const FrameWidth: int := 3
  const ReleasedFace: nat := 0x3D7F
  const PressedFace: nat := 0x001F
  const ReleasedFrame: nat := 0xFFFF
  const PressedFrame: nat := 0x8410

  /** Whether the pixel at column `x`, row `y` belongs to the frame. */
  predicate IsFrame(x: int, y: int, width: int, height: int) {
    x < FrameWidth || x >= width - FrameWidth || y < FrameWidth || y >= height - FrameWidth
  }

  /** The RGB565 colour of a pixel. */
  function PixelColor(x: int, y: int, width: int, height: int, pressed: bool): (c: nat)
    ensures c < 0x1_0000
  {
    if IsFrame(x, y, width, height) then (if pressed then PressedFrame else ReleasedFrame)
    else if pressed then PressedFace else ReleasedFace
  }

  /** `v.to_bytes(2, 'little')`. */
  function LittleEndian16(v: nat): (b: seq<byte>)
    requires v < 0x1_0000
    ensures |b| == 2 && b[0] as int + 256 * b[1] as int == v
  {
    [(v % 256) as byte, (v / 256) as byte]
  }

  /** The words of the first `n` pixels of row `y`. */
  function RowPrefix(y: int, n: nat, width: int, height: int, pressed: bool): (r: seq<byte>)
    ensures |r| == 2 * n
  {
    if n == 0 then []
    else RowPrefix(y, n - 1, width, height, pressed) + LittleEndian16(PixelColor(n - 1, y, width, height, pressed))
  }

  /** The first `m` rows, each of `n` pixels. */
  function Rows(m: nat, n: nat, width: int, height: int, pressed: bool): (r: seq<byte>)
    ensures |r| == 2 * n * m
  {
    if m == 0 then []
    else Rows(m - 1, n, width, height, pressed) + RowPrefix(m - 1, n, width, height, pressed)
  }

  /** The picture `create_simple_button_data(width, height, pressed)`
      returns; a negative dimension gives no pixels. */
  function Image(width: int, height: int, pressed: bool): seq<byte> {
    Rows(Max(height, 0), Max(width, 0), width, height, pressed)
  }

  lemma {:induction false} RowPrefixAt(y: int, n: nat, width: int, height: int, pressed: bool, x: nat)
    requires x < n
    ensures RowPrefix(y, n, width, height, pressed)[2 * x..2 * x + 2]
            == LittleEndian16(PixelColor(x, y, width, height, pressed))
  {
    var r := RowPrefix(y, n, width, height, pressed);
    var front := RowPrefix(y, n - 1, width, height, pressed);
    if x < n - 1 {
      RowPrefixAt(y, n - 1, width, height, pressed, x);
      assert r[2 * x..2 * x + 2] == front[2 * x..2 * x + 2];
    } else {
      assert r[2 * x..2 * x + 2] == r[|front|..];
    }
  }

  lemma {:induction false} RowsAt(m: nat, n: nat, width: int, height: int, pressed: bool, x: nat, y: nat)
    requires x < n && y < m
    ensures 2 * (y * n + x) + 2 <= |Rows(m, n, width, height, pressed)|
    ensures Rows(m, n, width, height, pressed)[2 * (y * n + x)..2 * (y * n + x) + 2]
            == LittleEndian16(PixelColor(x, y, width, height, pressed))
  {
    OffsetBound(x, y, n, m);
    if y < m - 1 {
      RowsAt(m - 1, n, width, height, pressed, x, y);
      EarlierRow(m, n, width, height, pressed, x, y);
    } else {
      LastRow(m, n, width, height, pressed, x);
    }
  }

  /** A pixel of an earlier row sits where it sat before the last row was
      added. */
  lemma EarlierRow(m: nat, n: nat, width: int, height: int, pressed: bool, x: nat, y: nat)
    requires x < n && y < m - 1
    ensures 2 * (y * n + x) + 2 <= |Rows(m - 1, n, width, height, pressed)|
    ensures Rows(m, n, width, height, pressed)[2 * (y * n + x)..2 * (y * n + x) + 2]
            == Rows(m - 1, n, width, height, pressed)[2 * (y * n + x)..2 * (y * n + x) + 2]
  {
    var o := 2 * (y * n + x);
    OffsetBound(x, y, n, m - 1);
    SliceLeft(Rows(m - 1, n, width, height, pressed), RowPrefix(m - 1, n, width, height, pressed), o, o + 2);
  }

  /** A pixel of the last row. */
  lemma LastRow(m: nat, n: nat, width: int, height: int, pressed: bool, x: nat)
    requires x < n && 0 < m
    ensures var o := 2 * ((m - 1) * n + x);
            o + 2 <= |Rows(m, n, width, height, pressed)|
            && Rows(m, n, width, height, pressed)[o..o + 2]
               == LittleEndian16(PixelColor(x, m - 1, width, height, pressed))
  {
    var front := Rows(m - 1, n, width, height, pressed);
    OffsetBound(x, m - 1, n, m);
    RowOffset(x, m - 1, n);
    RowPrefixAt(m - 1, n, width, height, pressed, x);
    SliceRight(front, RowPrefix(m - 1, n, width, height, pressed), 2 * x, 2 * x + 2);
  }

  lemma OffsetBound(x: nat, y: nat, n: nat, m: nat)
    requires x < n && y < m
    ensures 2 * (y * n + x) + 2 <= 2 * n * m
  {
    assert y * n + n == (y + 1) * n;
    assert (y + 1) * n <= m * n;
  }

  lemma RowOffset(x: nat, y: nat, n: nat)
    ensures 2 * (y * n + x) == 2 * n * y + 2 * x
  {
  }

  /** The picture holds `2 * width * height` bytes (12800 for 80 by 80), and
      the pixel at column `x`, row `y` is the little-endian word at offset
      `2 * (y * width + x)`: the frame colour within three pixels of an
      edge, the face colour elsewhere, both depending on `pressed`. */
  lemma ImageLayout(width: nat, height: nat, pressed: bool, x: nat, y: nat)
    requires x < width && y < height
    ensures |Image(width, height, pressed)| == 2 * width * height
    ensures var o := 2 * (y * width + x);
            var img := Image(width, height, pressed);
            o + 2 <= |img|
            && img[o] as int + 256 * img[o + 1] as int
               == if IsFrame(x, y, width, height) then (if pressed then 0x8410 else 0xFFFF)
                  else if pressed then 0x001F else 0x3D7F
  {
    RowsAt(height, width, width, height, pressed, x, y);
    var o := 2 * (y * width + x);
    var img := Image(width, height, pressed);
    var w := LittleEndian16(PixelColor(x, y, width, height, pressed));
    assert img[o..o + 2] == w;
    assert img[o] == w[0] && img[o + 1] == w[1];
  }

  /** The two 80 by 80 pictures of the example hold 12800 bytes each. */
  lemma ExampleSizes()
    ensures |Image(80, 80, false)| == 12800 && |Image(80, 80, true)| == 12800
  {
  }

  /** `create_simple_button_data`: extend the buffer pixel by pixel, row by
      row. */
  method CreateSimpleButtonData(width: int, height: int, pressed: bool) returns (data: seq<byte>)
    ensures data == Image(width, height, pressed)
  {
    var color := if pressed then 0x001F else 0x3D7F;
    data := [];
    var y := 0;
    while y < height
      invariant 0 <= y <= Max(height, 0)
      invariant data == Rows(y, Max(width, 0), width, height, pressed)
    {
      ghost var before := data;
      var x := 0;
      while x < width
        invariant 0 <= x <= Max(width, 0)
        invariant data == before + RowPrefix(y, x, width, height, pressed)
      {
        ghost var row := RowPrefix(y, x, width, height, pressed);
        if x < 3 || x >= width - 3 || y < 3 || y >= height - 3 {
          var borderColor := if !pressed then 0xFFFF else 0x8410;
          Assoc(before, row, LittleEndian16(borderColor));
          data := data + LittleEndian16(borderColor);
        } else {
          Assoc(before, row, LittleEndian16(color));
          data := data + LittleEndian16(color);
        }
        x := x + 1;
      }
      y := y + 1;
    }
  }
}
