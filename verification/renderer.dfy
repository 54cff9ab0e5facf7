/**
 The integrator and image assembly of src/renderer.rs: the bounce-bounded
 recursive `color_ray`, the jittered sample coordinates of a pixel, the
 accumulation and byte quantisation of its samples, and the row-major layout
 of scanlines in the pixel buffer. Random numbers are inputs: each sample
 carries its two jitter values and the unit-ball draws its bounces consume.
 */
module Rendering {
  import opened Options
  import opened Vectors
  import opened Rays
  import opened Hittable
  import opened Worlds
  import opened Materials
  import opened Cameras
  import opened Utils

  /** The bounce budget each primary ray starts with. */
  const MaxBounce: int := 64

  /** The sky colour looking straight up. */
  const Sky: Color := Vec3(0.5, 0.7, 1.0)

  /**
   The colour of a ray that escapes the scene: white blended towards `Sky` by
   `t = (y + 1) / 2`, where `y` is the raw, un-normalised direction's
   vertical component. Blue stays at one; red and green fall linearly in `t`.
   */
  function Background(direction: Vec3): (r: Color)
    ensures var t := 0.5 * (direction.y + 1.0);
            r.x == 1.0 - 0.5 * t && r.y == 1.0 - 0.3 * t && r.z == 1.0
    ensures -1.0 <= direction.y <= 1.0 ==> 0.5 <= r.x <= 1.0 && 0.7 <= r.y <= 1.0
  {
    var t := 0.5 * (direction.y + 1.0);
    White.Scale(1.0 - t).Add(Sky.Scale(t))
  }

  /** Looking straight down gives white, straight up gives the sky colour. */
  lemma BackgroundEnds(direction: Vec3)
    ensures direction.y == -1.0 ==> Background(direction) == White
    ensures direction.y == 1.0 ==> Background(direction) == Sky
  {
  }

  /** What happens to a ray at one level of `color_ray`. */
  datatype Event =
    | Escaped(background: Color)
    | Absorbed
    | Bounced(attenuation: Color, next: Ray)

  /**
   One level of `color_ray`: the ray escapes to the background when it hits
   nothing, is absorbed when the surface's material absorbs it, and otherwise
   bounces off the hit point, tinted by the material's attenuation. A bounced
   ray starts on the surface nearest along the ray and is never degenerate.
   */
  function Step(w: World, ray: Ray, draw: Vec3, sqrt: real -> real): (e: Event)
    requires IsSqrt(sqrt)
    requires ray.direction != Zero
    ensures e.Escaped? <==> NearestHit(w, ray, sqrt).None?
    ensures e.Escaped? ==> e.background == Background(ray.direction)
    ensures e.Bounced? ==> && e.next.direction != Zero
                           && e.next.origin == ray.At(NearestHit(w, ray, sqrt).value.solution)
  {
    match NearestHit(w, ray, sqrt)
    case None => Escaped(Background(ray.direction))
    case Some(hit) =>
      match Scatter(ray, hit, draw, sqrt)
      case None => Absorbed
      case Some(s) => Bounced(s.attenuation, s.ray)
  }

  /**
   `Renderer::color_ray`. With no bounces left the ray is black. Otherwise the
   nearest hit decides: a miss shows the background, an absorbing surface is
   black, and a scattered ray is traced with one bounce fewer and tinted by the
   attenuation. Each level consumes the first draw of `draws` and passes the
   rest on; the recursion is bounded by `bounce`.
   */
  function ColorRay(w: World, ray: Ray, bounce: int, draws: seq<Vec3>, sqrt: real -> real): Color
    requires IsSqrt(sqrt)
    requires ray.direction != Zero
    requires bounce <= |draws|
    decreases bounce
  {
    if bounce <= 0 then Zero
    else
      match Step(w, ray, draws[0], sqrt)
      case Escaped(background) => background
      case Absorbed => Zero
      case Bounced(attenuation, next) => ColorRay(w, next, bounce - 1, draws[1..], sqrt).Mul(attenuation)
  }

  /** When the ray bounces, its colour is the bounced ray's colour, one level down, tinted by the attenuation. */
  lemma ColorRayBounced(w: World, ray: Ray, bounce: int, draws: seq<Vec3>, sqrt: real -> real)
    requires IsSqrt(sqrt)
    requires ray.direction != Zero
    requires 0 < bounce <= |draws|
    requires Step(w, ray, draws[0], sqrt).Bounced?
    ensures var e := Step(w, ray, draws[0], sqrt);
            ColorRay(w, ray, bounce, draws, sqrt) == ColorRay(w, e.next, bounce - 1, draws[1..], sqrt).Mul(e.attenuation)
  {
  }

  /**
   `color_ray` with the attenuations accumulated on the way down instead of
   applied on the way back: it carries the product of the attenuations met so
   far and tints the colour that ends the path by it. Starting from white it
   computes the same colour as the recursion.
   */
  method ColorRayTinted(w: World, ray: Ray, bounce: int, draws: seq<Vec3>, tint: Color, sqrt: real -> real) returns (c: Color)
    requires IsSqrt(sqrt)
    requires ray.direction != Zero
    requires bounce <= |draws|
    ensures c == ColorRay(w, ray, bounce, draws, sqrt).Mul(tint)
    decreases bounce
  {
    if bounce <= 0 {
      MulZero(tint);
      return Zero;
    }
    var e := Step(w, ray, draws[0], sqrt);
    if e.Escaped? {
      return e.background.Mul(tint);
    } else if e.Absorbed? {
      MulZero(tint);
      return Zero;
    }
    c := ColorRayTinted(w, e.next, bounce - 1, draws[1..], e.attenuation.Mul(tint), sqrt);
    ColorRayBounced(w, ray, bounce, draws, sqrt);
    MulAssociative(ColorRay(w, e.next, bounce - 1, draws[1..], sqrt), e.attenuation, tint);
  }

  /** Tracing from white, the accumulated tint gives exactly `color_ray`'s colour. */
  method ColorRayFromWhite(w: World, ray: Ray, bounce: int, draws: seq<Vec3>, sqrt: real -> real) returns (c: Color)
    requires IsSqrt(sqrt)
    requires ray.direction != Zero
    requires bounce <= |draws|
    ensures c == ColorRay(w, ray, bounce, draws, sqrt)
  {
    c := ColorRayTinted(w, ray, bounce, draws, White, sqrt);
    MulWhite(ColorRay(w, ray, bounce, draws, sqrt));
  }

  /** White is the identity of tinting. */
  lemma MulWhite(c: Color)
    ensures c.Mul(White) == c
  {
  }

  /** Tinting black leaves black. */
  lemma MulZero(tint: Color)
    ensures Zero.Mul(tint) == Zero
  {
  }

  /**
   The ends of `color_ray`: with no bounces left the ray is black whatever the
   scene; with bounces left, a ray that meets nothing shows the background and
   a ray whose nearest surface absorbs it is black.
   */
  lemma ColorRayTerminal(w: World, ray: Ray, bounce: int, draws: seq<Vec3>, sqrt: real -> real)
    requires IsSqrt(sqrt)
    requires ray.direction != Zero
    requires bounce <= |draws|
    ensures bounce <= 0 ==> ColorRay(w, ray, bounce, draws, sqrt) == Zero
    ensures 0 < bounce && NearestHit(w, ray, sqrt).None? ==>
              ColorRay(w, ray, bounce, draws, sqrt) == Background(ray.direction)
    ensures 0 < bounce && NearestHit(w, ray, sqrt).Some? &&
            Scatter(ray, NearestHit(w, ray, sqrt).value, draws[0], sqrt).None? ==>
              ColorRay(w, ray, bounce, draws, sqrt) == Zero
  {
  }

  /** Only the first `bounce` draws matter: extra draws are never consumed. */
  lemma {:induction false} ColorRayUsesBounceDraws(w: World, ray: Ray, bounce: int, draws: seq<Vec3>, sqrt: real -> real)
    requires IsSqrt(sqrt)
    requires ray.direction != Zero
    requires 0 <= bounce <= |draws|
    ensures ColorRay(w, ray, bounce, draws, sqrt) == ColorRay(w, ray, bounce, draws[..bounce], sqrt)
    decreases bounce
  {
    if 0 < bounce {
      var prefix := draws[..bounce];
      assert prefix[0] == draws[0];
      assert prefix[1..] == draws[1..][..bounce - 1];
      match Step(w, ray, draws[0], sqrt)
      case Escaped(_) =>
      case Absorbed =>
      case Bounced(attenuation, next) =>
        ColorRayUsesBounceDraws(w, next, bounce - 1, draws[1..], sqrt);
    }
  }

  /** An empty scene shows the background along every ray while bounces remain. */
  lemma EmptySceneIsSky(ray: Ray, bounce: int, draws: seq<Vec3>, sqrt: real -> real)
    requires IsSqrt(sqrt)
    requires ray.direction != Zero
    requires 0 < bounce <= |draws|
    ensures ColorRay(NewWorld(), ray, bounce, draws, sqrt) == Background(ray.direction)
  {
    NearestInScene(NewWorld(), ray, sqrt);
  }

  /** An output channel value: `u8`. */
  newtype Byte = b: int | 0 <= b < 256

  datatype Pixel = Pixel(r: Byte, g: Byte, b: Byte)

  /**
   One channel: the value clamped to [0, 1], scaled by 255 and truncated, as
   the `as u8` cast does for values in that range. The byte is the largest
   whose value does not exceed `255 * c`.
   */
  function Quantize(c: real): (b: Byte)
    ensures c <= 0.0 ==> b == 0
    ensures 1.0 <= c ==> b == 255
    ensures 0.0 <= c <= 1.0 ==> b as real <= 255.0 * c < b as real + 1.0
  {
    var scaled := 255.0 * Clamp(0.0, 1.0, c);
    assert 0.0 <= scaled <= 255.0;
    scaled.Floor as Byte
  }

  /** Quantizing never lowers with a brighter input. */
  lemma QuantizeMonotone(c: real, d: real)
    requires c <= d
    ensures Quantize(c) <= Quantize(d)
  {
    var sc := 255.0 * Clamp(0.0, 1.0, c);
    var sd := 255.0 * Clamp(0.0, 1.0, d);
    assert sc <= sd;
  }

  function ToPixel(c: Color): Pixel {
    Pixel(Quantize(c.x), Quantize(c.y), Quantize(c.z))
  }

  /**
   The renderer's settings. `samplingFactor` is the reciprocal of the number
   of samples per pixel.
   */
  datatype Renderer = Renderer(width: nat, height: nat, samplesPerPixel: nat, samplingFactor: real)

  /** `Renderer::new`. */
  function NewRenderer(width: nat, height: nat, samplesPerPixel: nat): (r: Renderer)
    requires 0 < samplesPerPixel
    ensures r.width == width && r.height == height && r.samplesPerPixel == samplesPerPixel
    ensures r.samplingFactor * samplesPerPixel as real == 1.0
  {
    Renderer(width, height, samplesPerPixel, 1.0 / samplesPerPixel as real)
  }

  /**
   The image-plane coordinates of a sample in pixel `(x, y)` with jitter
   `(jx, jy)`: for jitter in [0, 1), `u` lies in [-0.5, 0.5) and `v` in
   (-0.5, 0.5], with `v` decreasing down the image.
   */
  function SampleCoords(r: Renderer, x: nat, y: nat, jx: real, jy: real): (uv: (real, real))
    requires x < r.width && y < r.height
    ensures 0.0 <= jx < 1.0 ==> -0.5 <= uv.0 < 0.5
    ensures 0.0 <= jy < 1.0 ==> -0.5 < uv.1 <= 0.5
  {
    var u := (x as real + jx) / r.width as real - 0.5;
    var v := 0.5 - (y as real + jy) / r.height as real;
    JitteredFraction(x, jx, r.width);
    JitteredFraction(y, jy, r.height);
    (u, v)
  }

  /** An index below `n` plus a jitter in [0, 1), divided by `n`, lies in [0, 1). */
  lemma JitteredFraction(i: nat, j: real, n: nat)
    requires i < n
    ensures 0.0 <= j < 1.0 ==> 0.0 <= (i as real + j) / n as real < 1.0
  {
    if 0.0 <= j < 1.0 {
      FractionInUnit(i as real + j, n as real);
    }
  }

  /** A non-negative value below a positive bound, divided by it, lies in [0, 1). */
  lemma FractionInUnit(a: real, n: real)
    requires 0.0 <= a < n
    ensures 0.0 <= a / n < 1.0
  {
    var q := a / n;
    assert q * n == a;
    if q < 0.0 {
      MulPositive(-q, n, -a);
    }
    if 1.0 <= q {
      MulNonNegative(q - 1.0, n, a - n);
    }
  }

  /** The randomness of one sample: its jitter and the draws its bounces consume. */
  datatype Sample = Sample(jx: real, jy: real, draws: seq<Vec3>)

  /** The primary ray of a sample. */
  function SampleRay(r: Renderer, camera: Camera, x: nat, y: nat, sample: Sample): Ray
    requires x < r.width && y < r.height
  {
    var uv := SampleCoords(r, x, y, sample.jx, sample.jy);
    CastRay(camera, uv.0, uv.1)
  }

  /**
   A sample the model can trace: it carries a draw for every bounce, and its
   primary ray has a direction. `CastRayNonZero` gives a sufficient condition
   on the camera for the second part at every image point.
   */
  predicate Traceable(r: Renderer, camera: Camera, x: nat, y: nat, sample: Sample)
    requires x < r.width && y < r.height
  {
    && MaxBounce <= |sample.draws|
    && SampleRay(r, camera, x, y, sample).direction != Zero
  }

  /** The colour one sample contributes: its primary ray traced with the full bounce budget. */
  function SampleColor(r: Renderer, camera: Camera, w: World, x: nat, y: nat, sample: Sample, sqrt: real -> real): Color
    requires IsSqrt(sqrt)
    requires x < r.width && y < r.height
    requires Traceable(r, camera, x, y, sample)
  {
    ColorRay(w, SampleRay(r, camera, x, y, sample), MaxBounce, sample.draws, sqrt)
  }

  /** The sum of a sequence of colours. */
  function Sum(colors: seq<Color>): Color
    decreases |colors|
  {
    if |colors| == 0 then Zero else colors[0].Add(Sum(colors[1..]))
  }

  /** The accumulator of `draw_scanline`: it starts at white and adds each sample in turn. */
  function Accumulate(colors: seq<Color>): Color
    decreases |colors|
  {
    if |colors| == 0 then White else Accumulate(colors[..|colors| - 1]).Add(colors[|colors| - 1])
  }

  /** The accumulated colour is white plus the sum of the samples, not their sum alone. */
  lemma {:induction false} AccumulateIsWhitePlusSum(colors: seq<Color>)
    ensures Accumulate(colors) == White.Add(Sum(colors))
    decreases |colors|
  {
    if |colors| > 0 {
      var init := colors[..|colors| - 1];
      AccumulateIsWhitePlusSum(init);
      SumSnoc(init, colors[|colors| - 1]);
      assert init + [colors[|colors| - 1]] == colors;
    }
  }

  lemma {:induction false} SumSnoc(colors: seq<Color>, c: Color)
    ensures Sum(colors + [c]) == Sum(colors).Add(c)
    decreases |colors|
  {
    if |colors| == 0 {
      assert [c][1..] == [];
    } else {
      assert (colors + [c])[1..] == colors[1..] + [c];
      SumSnoc(colors[1..], c);
    }
  }

  /** Equal samples sum to their number times the sample. */
  lemma {:induction false} SumOfCopies(samples: seq<Color>, c: Color)
    requires forall i :: 0 <= i < |samples| ==> samples[i] == c
    ensures Sum(samples) == c.Scale(|samples| as real)
    decreases |samples|
  {
    if 0 < |samples| {
      var n := |samples|;
      SumOfCopies(samples[1..], c);
      assert c.x + c.x * (n - 1) as real == c.x * n as real;
      assert c.y + c.y * (n - 1) as real == c.y * n as real;
      assert c.z + c.z * (n - 1) as real == c.z * n as real;
    }
  }

  /**
   Averaging `n` samples of one colour `c` with the white-started accumulator
   gives `c` plus `1/n` in every channel, not `c` itself.
   */
  lemma AverageOfCopies(samples: seq<Color>, c: Color)
    requires 0 < |samples|
    requires forall i :: 0 <= i < |samples| ==> samples[i] == c
    ensures Accumulate(samples).Scale(1.0 / |samples| as real) == c.Add(White.Scale(1.0 / |samples| as real))
  {
    var n := |samples|;
    var k := 1.0 / n as real;
    var total := Accumulate(samples);
    AccumulateCopies(samples, c);
    AverageChannel(c.x, total.x, n as real, k);
    AverageChannel(c.y, total.y, n as real, k);
    AverageChannel(c.z, total.z, n as real, k);
    ShiftedAverage(c, total, k);
  }

  /** The accumulator over `n` equal samples holds `1 + n c` in every channel. */
  lemma AccumulateCopies(samples: seq<Color>, c: Color)
    requires forall i :: 0 <= i < |samples| ==> samples[i] == c
    ensures var n := |samples| as real;
            Accumulate(samples) == Vec3(1.0 + c.x * n, 1.0 + c.y * n, 1.0 + c.z * n)
  {
    var n := |samples| as real;
    AccumulateIsWhitePlusSum(samples);
    SumOfCopies(samples, c);
    WhitePlusScaled(c, n);
  }

  lemma WhitePlusScaled(c: Color, n: real)
    ensures White.Add(c.Scale(n)) == Vec3(1.0 + c.x * n, 1.0 + c.y * n, 1.0 + c.z * n)
  {
  }

  /** A total whose channels scale to `c`'s channels plus `k` averages to `c` plus `k` white. */
  lemma ShiftedAverage(c: Color, total: Color, k: real)
    requires total.x * k == c.x + k && total.y * k == c.y + k && total.z * k == c.z + k
    ensures total.Scale(k) == c.Add(White.Scale(k))
  {
  }

  /** One channel of the average: `(1 + a n) / n` is `a + 1/n`. */
  lemma AverageChannel(a: real, t: real, n: real, k: real)
    requires 0.0 < n && k == 1.0 / n && t == 1.0 + a * n
    ensures t * k == a + k
  {
    assert n * k == 1.0;
    assert t * k == k + a * (n * k);
  }

  /** The colours of a pixel's samples, in drawing order. */
  function SampleColors(r: Renderer, camera: Camera, w: World, x: nat, y: nat, samples: seq<Sample>, sqrt: real -> real): (cs: seq<Color>)
    requires IsSqrt(sqrt)
    requires x < r.width && y < r.height
    requires forall k :: 0 <= k < |samples| ==> Traceable(r, camera, x, y, samples[k])
  {
    seq(|samples|, k requires 0 <= k < |samples| => SampleColor(r, camera, w, x, y, samples[k], sqrt))
  }

  /**
   One pixel of `draw_scanline`: the accumulated colour scaled by the sampling
   factor, each channel quantised to a byte.
   */
  function DrawPixel(r: Renderer, camera: Camera, w: World, x: nat, y: nat, samples: seq<Sample>, sqrt: real -> real): (p: Pixel)
    requires IsSqrt(sqrt)
    requires x < r.width && y < r.height
    requires forall k :: 0 <= k < |samples| ==> Traceable(r, camera, x, y, samples[k])
    ensures var c := White.Add(Sum(SampleColors(r, camera, w, x, y, samples, sqrt))).Scale(r.samplingFactor);
            p == Pixel(Quantize(c.x), Quantize(c.y), Quantize(c.z))
  {
    var colors := SampleColors(r, camera, w, x, y, samples, sqrt);
    AccumulateIsWhitePlusSum(colors);
    ToPixel(Accumulate(colors).Scale(r.samplingFactor))
  }

  /** The randomness of one row fits it: a list of samples per column, each traceable. */
  predicate RowFits(r: Renderer, camera: Camera, y: nat, row: seq<seq<Sample>>)
    requires y < r.height
  {
    && |row| == r.width
    && (forall x :: 0 <= x < |row| ==> |row[x]| == r.samplesPerPixel)
    && (forall x, k :: 0 <= x < |row| && 0 <= k < |row[x]| ==> Traceable(r, camera, x, y, row[x][k]))
  }

  /** The randomness of a whole image fits it: rows by columns by samples. */
  predicate ImageFits(r: Renderer, camera: Camera, samples: seq<seq<seq<Sample>>>) {
    && |samples| == r.height
    && forall y :: 0 <= y < |samples| ==> RowFits(r, camera, y, samples[y])
  }

  /** `draw_scanline`: pixel `x` of row `y`, for every `x` across the width. */
  function DrawScanline(r: Renderer, camera: Camera, w: World, y: nat, row: seq<seq<Sample>>, sqrt: real -> real): (line: seq<Pixel>)
    requires IsSqrt(sqrt)
    requires y < r.height
    requires RowFits(r, camera, y, row)
    ensures |line| == r.width
    ensures forall x :: 0 <= x < r.width ==> line[x] == DrawPixel(r, camera, w, x, y, row[x], sqrt)
  {
    seq(r.width, x requires 0 <= x < r.width => DrawPixel(r, camera, w, x, y, row[x], sqrt))
  }

  /** The rows laid end to end. */
  function Flatten<T>(rows: seq<seq<T>>): seq<T>
    decreases |rows|
  {
    if |rows| == 0 then [] else Flatten(rows[..|rows| - 1]) + rows[|rows| - 1]
  }

  /** The buffer index of column `x` in row `y` of rows `width` wide. */
  function Offset(width: nat, x: nat, y: nat): nat {
    y * width + x
  }

  /** In rows of equal width, entry `x` of row `y` sits at `Offset(width, x, y)`, inside the buffer. */
  lemma {:induction false} FlattenIndex<T>(rows: seq<seq<T>>, width: nat)
    requires forall y :: 0 <= y < |rows| ==> |rows[y]| == width
    ensures |Flatten(rows)| == |rows| * width
    ensures forall y, x :: 0 <= y < |rows| && 0 <= x < width ==> Offset(width, x, y) < |Flatten(rows)|
    ensures forall y, x :: 0 <= y < |rows| && 0 <= x < width ==> Flatten(rows)[Offset(width, x, y)] == rows[y][x]
    decreases |rows|
  {
    if |rows| > 0 {
      var init := rows[..|rows| - 1];
      FlattenIndex(init, width);
      var last := |rows| - 1;
      assert Flatten(rows) == Flatten(init) + rows[last];
      assert |Flatten(rows)| == |init| * width + width;
      forall y, x | 0 <= y < |rows| && 0 <= x < width
        ensures Offset(width, x, y) < |Flatten(rows)|
        ensures Flatten(rows)[Offset(width, x, y)] == rows[y][x]
      {
        if y < last {
          IndexBelow(y, x, last, width);
        } else {
          assert Offset(width, x, y) == |init| * width + x;
        }
      }
    }
  }

  /** In a row above the last, an offset within the width stays before the last row's start. */
  lemma IndexBelow(y: nat, x: nat, last: nat, width: nat)
    requires y < last && x < width
    ensures Offset(width, x, y) < last * width
  {
    MulNonNegative((last - y - 1) as real, width as real, ((last - y - 1) * width) as real);
    assert last * width == y * width + width + (last - y - 1) * width;
  }

  /**
   `Renderer::draw_scene`: the scanlines, drawn one after another here rather
   than in parallel, laid out row-major in a buffer of `width * height`
   pixels, so that pixel `(x, y)` is entry `y * width + x`. Splitting the
   buffer into rows of zero width panics in the source, so the width is
   positive.
   */
  function DrawScene(r: Renderer, camera: Camera, w: World, samples: seq<seq<seq<Sample>>>, sqrt: real -> real): (pixels: seq<Pixel>)
    requires IsSqrt(sqrt)
    requires 0 < r.width
    requires ImageFits(r, camera, samples)
    ensures |pixels| == r.width * r.height
    ensures forall y, x :: 0 <= y < r.height && 0 <= x < r.width ==> Offset(r.width, x, y) < |pixels|
    ensures forall y, x :: 0 <= y < r.height && 0 <= x < r.width ==>
              pixels[Offset(r.width, x, y)] == DrawPixel(r, camera, w, x, y, samples[y][x], sqrt)
  {
    var rows := seq(r.height, y requires 0 <= y < r.height => DrawScanline(r, camera, w, y, samples[y], sqrt));
    FlattenIndex(rows, r.width);
    Flatten(rows)
  }

  /** Scanline `y` is exactly the slice `[y * width, (y + 1) * width)` of the buffer. */
  lemma ScanlineInScene(r: Renderer, camera: Camera, w: World, samples: seq<seq<seq<Sample>>>, y: nat, sqrt: real -> real)
    requires IsSqrt(sqrt)
    requires 0 < r.width
    requires ImageFits(r, camera, samples)
    requires y < r.height
    ensures (y + 1) * r.width <= r.width * r.height
    ensures DrawScene(r, camera, w, samples, sqrt)[y * r.width..(y + 1) * r.width]
              == DrawScanline(r, camera, w, y, samples[y], sqrt)
  {
    RowEnd(y, r.height, r.width);
    var pixels := DrawScene(r, camera, w, samples, sqrt);
    var line := DrawScanline(r, camera, w, y, samples[y], sqrt);
    forall x | 0 <= x < r.width
      ensures pixels[Offset(r.width, x, y)] == line[x]
    {
    }
    RowSlice(pixels, line, r.width, y);
  }

  /** A row whose every entry sits at its offset in the buffer is the buffer's slice for that row. */
  lemma RowSlice<T>(buffer: seq<T>, row: seq<T>, width: nat, y: nat)
    requires |row| == width && (y + 1) * width <= |buffer|
    requires forall x :: 0 <= x < width ==> buffer[Offset(width, x, y)] == row[x]
    ensures buffer[y * width..(y + 1) * width] == row
  {
    var slice := buffer[y * width..(y + 1) * width];
    forall x | 0 <= x < width
      ensures slice[x] == row[x]
    {
      assert slice[x] == buffer[Offset(width, x, y)];
    }
  }

  /** The end of a row below the last lies inside the buffer. */
  lemma RowEnd(y: nat, height: nat, width: nat)
    requires y < height
    ensures (y + 1) * width <= width * height
  {
    MulNonNegative((height - y - 1) as real, width as real, ((height - y - 1) * width) as real);
    assert width * height == (y + 1) * width + (height - y - 1) * width;
  }
}
