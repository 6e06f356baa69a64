/**
  * Generated images and surface upload (neon/src/core/image.c): a solid colour
  * image, a checkerboard whose cells are picked by masking the pixel coordinates,
  * and `upload_surface`, which accepts only TGA files.
  */
module Images {
  import opened Wrappers
  import opened Bytes
  import opened Text
  import Targa

  /** `RGB_COLOR`: three bytes, so `sizeof(RGB_COLOR)` is 3. */
  datatype Rgb = Rgb(r: byte, g: byte, b: byte)

  const BLACK: Rgb := Rgb(0, 0, 0)
  const RGB_SIZE: nat := 3

  /**
    * The fields of `IMAGE_DATA` the generators set. The internal and pixel formats
    * come from the video module's runtime format table and are not modelled.
    */
  datatype Generated = Generated(width: nat, height: nat, pixels: seq<Rgb>, size: nat, bpp: nat)

  /** Row `j` of an image whose pixel (i, j) is `pixel(i, j)`. */
  function RowOf(width: nat, j: nat, pixel: (nat, nat) -> Rgb): (row: seq<Rgb>)
    ensures |row| == width
    ensures forall i :: 0 <= i < width ==> row[i] == pixel(i, j)
  {
    seq(width, i requires 0 <= i < width => pixel(i, j))
  }

  /** Rows 0 .. height-1 laid out one after the other: pixel (i, j) at index j·width + i. */
  function Grid(width: nat, height: nat, pixel: (nat, nat) -> Rgb): (g: seq<Rgb>)
  {
    if height == 0 then [] else Grid(width, height - 1, pixel) + RowOf(width, height - 1, pixel)
  }

  lemma {:induction false} GridSize(width: nat, height: nat, pixel: (nat, nat) -> Rgb)
    ensures |Grid(width, height, pixel)| == width * height
  {
    if height > 0 {
      GridSize(width, height - 1, pixel);
      assert width * (height - 1) + width == width * height;
    }
  }

  /** The buffer is row-major: pixel (i, j) sits at index j·width + i. */
  lemma {:induction false} GridAt(width: nat, height: nat, pixel: (nat, nat) -> Rgb, i: nat, j: nat)
    requires i < width && j < height
    ensures j * width + i < |Grid(width, height, pixel)| && Grid(width, height, pixel)[j * width + i] == pixel(i, j)
  {
    GridSize(width, height - 1, pixel);
    var init := Grid(width, height - 1, pixel);
    assert |init| == (height - 1) * width;
    if j < height - 1 {
      GridAt(width, height - 1, pixel, i, j);
      MulMono(j, height - 2, width);
      assert j * width + i < |init|;
    } else {
      assert j * width + i == |init| + i;
    }
  }

  lemma MulMono(a: nat, b: nat, k: nat)
    requires a <= b
    ensures a * k <= b * k
  {
  }

  /** The solid colour of `image_generate_color`. */
  function Solid(color: Rgb): (nat, nat) -> Rgb
  {
    (i: nat, j: nat) => color
  }

  /**
    * `pixel *= c` on each unsigned-char channel, with `c` the 0/1 result of the
    * comparison; the product is truncated to a byte.
    */
  function Scale(color: Rgb, c: nat): (p: Rgb)
    ensures c == 1 ==> p == color
    ensures c == 0 ==> p == BLACK
  {
    Rgb(((color.r as int * c) % 0x100) as byte, ((color.g as int * c) % 0x100) as byte,
        ((color.b as int * c) % 0x100) as byte)
  }

  /**
    * `i & mask` for a non-negative `int` and an `unsigned char` mask: only the low
    * eight bits of `i` can survive the mask.
    */
  function MaskBits(i: nat, mask: bv8): bv8
  {
    ((i % 0x100) as bv8) & mask
  }

  /** The checkerboard pixel (i, j): 1 when exactly one of the masked coordinates is zero. */
  function Check(mask: bv8, color: Rgb): (nat, nat) -> Rgb
  {
    (i: nat, j: nat) => Scale(color, if (MaskBits(i, mask) == 0) != (MaskBits(j, mask) == 0) then 1 else 0)
  }

  /** A checker pixel is the colour exactly when one masked coordinate is zero and the other is not, else black. */
  lemma CheckPixel(mask: bv8, color: Rgb, i: nat, j: nat)
    ensures (MaskBits(i, mask) == 0) != (MaskBits(j, mask) == 0) ==> Check(mask, color)(i, j) == color
    ensures (MaskBits(i, mask) == 0) == (MaskBits(j, mask) == 0) ==> Check(mask, color)(i, j) == BLACK
  {
  }

  /** The checkerboard is symmetric in its two coordinates and repeats every 256 pixels. */
  lemma CheckSymmetricPeriodic(mask: bv8, color: Rgb, i: nat, j: nat)
    ensures Check(mask, color)(i, j) == Check(mask, color)(j, i)
    ensures Check(mask, color)(i + 0x100, j) == Check(mask, color)(i, j)
  {
    assert (i + 0x100) % 0x100 == i % 0x100;
  }

  /** With mask 8 the cells are 8 pixels wide: (0, 0) is black, (8, 0) and (0, 8) are coloured, (8, 8) black. */
  lemma CheckCells(color: Rgb)
    ensures Check(8, color)(0, 0) == BLACK && Check(8, color)(7, 7) == BLACK
    ensures Check(8, color)(8, 0) == color && Check(8, color)(0, 8) == color
    ensures Check(8, color)(8, 8) == BLACK
  {
    assert MaskBits(7, 8) == 0 by { assert (7 as bv8) & 8 == 0; }
    assert MaskBits(8, 8) != 0 by { assert (8 as bv8) & 8 == 8; }
    assert MaskBits(0, 8) == 0 by { assert (0 as bv8) & 8 == 0; }
  }

  /**
    * Fills row `j` left to right. The source stores pixel (i, j) at index j·width + i
    * of a buffer of width·height pixels; visiting j, then i, in increasing order stores
    * the indices in increasing order, so appending builds the same buffer.
    */
  method FillRow(width: nat, j: nat, pixel: (nat, nat) -> Rgb) returns (row: seq<Rgb>)
    ensures row == RowOf(width, j, pixel)
  {
    row := [];
    var i := 0;
    while i < width
      invariant i <= width && |row| == i
      invariant forall k :: 0 <= k < i ==> row[k] == pixel(k, j)
    {
      row := row + [pixel(i, j)];
      i := i + 1;
    }
  }

  /** The two nested loops of the generators. */
  method Fill(width: nat, height: nat, pixel: (nat, nat) -> Rgb) returns (pixels: seq<Rgb>)
    ensures pixels == Grid(width, height, pixel)
  {
    pixels := [];
    var j := 0;
    while j < height
      invariant j <= height && pixels == Grid(width, j, pixel)
    {
      var row := FillRow(width, j, pixel);
      pixels := pixels + row;
      j := j + 1;
    }
  }

  /** `image_generate_color`: every pixel is `color`; 24 bits per pixel, 3 bytes each. */
  method GenerateColor(width: nat, height: nat, color: Rgb) returns (img: Generated)
    ensures img.width == width && img.height == height && img.bpp == 24
    ensures img.size == width * height * RGB_SIZE && |img.pixels| == width * height
    ensures forall k :: 0 <= k < |img.pixels| ==> img.pixels[k] == color
  {
    var pixels := Fill(width, height, Solid(color));
    GridSize(width, height, Solid(color));
    SolidGrid(width, height, color);
    img := Generated(width, height, pixels, width * height * RGB_SIZE, 24);
  }

  lemma {:induction false} SolidGrid(width: nat, height: nat, color: Rgb)
    ensures forall k :: 0 <= k < |Grid(width, height, Solid(color))| ==> Grid(width, height, Solid(color))[k] == color
  {
    if height > 0 {
      SolidGrid(width, height - 1, color);
    }
  }

  /** `image_generate_check`: pixel (i, j) at index j·width + i is the checker pixel; 24 bits per pixel. */
  method GenerateCheck(width: nat, height: nat, mask: bv8, color: Rgb) returns (img: Generated)
    ensures img.width == width && img.height == height && img.bpp == 24
    ensures img.size == width * height * RGB_SIZE && |img.pixels| == width * height
    ensures img.pixels == Grid(width, height, Check(mask, color))
  {
    var pixels := Fill(width, height, Check(mask, color));
    GridSize(width, height, Check(mask, color));
    img := Generated(width, height, pixels, width * height * RGB_SIZE, 24);
  }

  /** Every pixel of a generated checkerboard is the colour or black, as its coordinates say. */
  lemma CheckerboardPixels(width: nat, height: nat, mask: bv8, color: Rgb, i: nat, j: nat)
    requires i < width && j < height
    ensures var pixels := Grid(width, height, Check(mask, color));
      j * width + i < |pixels| &&
      pixels[j * width + i] == (if (MaskBits(i, mask) == 0) != (MaskBits(j, mask) == 0) then color else BLACK)
  {
    GridAt(width, height, Check(mask, color), i, j);
    CheckPixel(mask, color, i, j);
  }

  // ---------------------------------------------------------------- upload

  /** The fields `SDL_CreateRGBSurfaceFrom` receives: pixels, size, depth and pitch (bytes per row). */
  datatype Surface = Surface(pixels: seq<byte>, width: int, height: int, depth: int, pitch: int)

  /** `upload_surface` returns NULL, exits the process, or creates a surface. */
  datatype Upload = NoSurface | Exit | Created(surface: Surface)

  /** The image `upload_surface` zeroes before loading; a failed load leaves it so. */
  const EMPTY_IMAGE: Targa.Image := Targa.Image(None, 0, 0, 0, [], 0, 0, 0)

  /**
    * `upload_surface`: a name without '.' gives NULL; an extension other than ".tga"
    * (compared case-sensitively) exits; otherwise the TGA loader's image, or the
    * zeroed image when it fails, becomes a surface with pitch (bpp/8)·width.
    */
  function UploadSurface(name: string, file: Option<seq<byte>>): (u: Upload)
    ensures u == NoSurface <==> '.' !in name
    ensures u == Exit <==> '.' in name && Extension(name) != ".tga"
    ensures u.Created? ==> Extension(name) == ".tga"
    ensures u.Created? && Targa.LoadTarga(file).Ok? ==>
      var image := Targa.LoadTarga(file).value;
      u.surface == Surface(image.pixels, image.width, image.height, image.bpp, (image.bpp / 8) * image.width)
    ensures u.Created? && Targa.LoadTarga(file).Err? ==> u.surface == Surface([], 0, 0, 0, 0)
  {
    var ext := Extension(name);
    if ext == [] then NoSurface
    else if ext != ".tga" then Exit
    else
      var image := match Targa.LoadTarga(file) case Ok(img) => img case Err(_) => EMPTY_IMAGE;
      Created(Surface(image.pixels, image.width, image.height, image.bpp, (image.bpp / 8) * image.width))
  }

  /** Unlike the reader tables, the surface check is case-sensitive: "SKY.TGA" exits. */
  lemma UploadIsCaseSensitive(file: Option<seq<byte>>)
    ensures UploadSurface("SKY.TGA", file) == Exit
    ensures UploadSurface("sky.tga", file).Created?
    ensures UploadSurface("sky", file) == NoSurface
  {
    var upper := "SKY.TGA";
    assert upper[3] == '.' && upper[4] != '.' && upper[5] != '.' && upper[6] != '.';
    assert LastIndexOf(upper, '.') == Some(3);
    assert Extension(upper) == ".TGA";
    var lower := "sky.tga";
    assert lower[3] == '.' && lower[4] != '.' && lower[5] != '.' && lower[6] != '.';
    assert LastIndexOf(lower, '.') == Some(3);
    assert Extension(lower) == ".tga";
    assert forall k :: 0 <= k < 3 ==> "sky"[k] != '.';
  }
}
