/**
 * The image comparator (Comparador_Img.py): two images are fetched, a shape
 * mismatch short-circuits to an anomaly, and otherwise four metrics are
 * computed and each is tested against its threshold; the verdict is the OR
 * of the four tests. The mean absolute grey-level difference and the
 * green-channel histogram with its normalisation are modelled exactly; the
 * download, the decoder, the grey conversion, PSNR, SSIM and the histogram
 * correlation are library calls and enter as function-valued parameters.
 */
module ImageComparator {
  import opened Wrappers

  // ---------------------------------------------------------------------------
  // Pixel grids
  // ---------------------------------------------------------------------------

  /** An 8-bit unsigned sample (`np.uint8`). */
  type Byte = x: int | 0 <= x < 256

  /** One decoded colour pixel; channel 1 is OpenCV's green channel. */
  datatype Bgr = Bgr(c0: Byte, c1: Byte, c2: Byte)

  /** `rows` has exactly `h` rows of `w` entries each. */
  predicate IsGrid<T>(rows: seq<seq<T>>, h: nat, w: nat)
  {
    |rows| == h && forall i :: 0 <= i < h ==> |rows[i]| == w
  }

  /** A non-empty rectangular grid. */
  predicate IsPlane<T>(rows: seq<seq<T>>)
  {
    |rows| > 0 && |rows[0]| > 0 && IsGrid(rows, |rows|, |rows[0]|)
  }

  /** What `cv2.imdecode(..., IMREAD_COLOR)` yields on success: a non-empty
      rectangular grid of three-channel pixels. */
  type Image = rows: seq<seq<Bgr>> | IsPlane(rows) witness [[Bgr(0, 0, 0)]]

  /** A single-channel 8-bit image (the grey or the green plane). */
  type Plane = seq<seq<Byte>>

  /** NumPy's `img.shape`: height, width and channel count. A decoded colour
      image always has three channels. */
  datatype Shape = Shape(height: nat, width: nat, channels: nat)

  function ShapeOf(img: Image): (s: Shape)
    ensures s.channels == 3 && s.height > 0 && s.width > 0
    ensures IsGrid(img, s.height, s.width)
  {
    Shape(|img|, |img[0]|, 3)
  }

  /** Two planes of the same non-empty shape. */
  predicate SameShape(g1: Plane, g2: Plane)
  {
    IsPlane(g1) && IsGrid(g2, |g1|, |g1[0]|)
  }

  // ---------------------------------------------------------------------------
  // Collaborators: download, decoding and the OpenCV / scikit-image metrics
  // ---------------------------------------------------------------------------

  datatype HttpResponse = HttpResponse(statusCode: int, content: seq<Byte>)

  /** `requests.get` and `cv2.imdecode`; the decoder answers `None` for bytes
      that are not an image. */
  datatype Fetcher = Fetcher(get: string -> HttpResponse, imdecode: seq<Byte> -> Option<Image>)

  /** The library calls behind the metrics: `cv2.cvtColor(_, COLOR_BGR2GRAY)`,
      `cv2.PSNR`, skimage's `structural_similarity` and
      `cv2.compareHist(_, _, HISTCMP_CORREL)`. */
  datatype Library = Library(
    bgrToGray: Image -> Plane,
    psnr: (Image, Image) -> real,
    ssim: (Plane, Plane) -> real,
    compareHistCorrel: (seq<real>, seq<real>) -> real)

  /** The one property of the library the comparator relies on: the grey
      conversion keeps the height and width of its input. */
  ghost predicate GrayKeepsShape(lib: Library)
  {
    forall img: Image :: IsGrid(lib.bgrToGray(img), |img|, |img[0]|)
  }

  /** `cargar_imagen`: a status other than 200 gives no image, otherwise
      whatever the decoder makes of the body. */
  function LoadImage(f: Fetcher, url: string): (r: Option<Image>)
    ensures f.get(url).statusCode != 200 ==> r.None?
    ensures r.Some? ==> f.get(url).statusCode == 200 && f.imdecode(f.get(url).content) == r
    ensures f.get(url).statusCode == 200 ==> r == f.imdecode(f.get(url).content)
  {
    var resp := f.get(url);
    if resp.statusCode != 200 then None
    else f.imdecode(resp.content)
  }

  // ---------------------------------------------------------------------------
  // Mean absolute grey-level difference (`porcentaje_cambio`)
  // ---------------------------------------------------------------------------

  /** `|a - b|` on two samples, as `cv2.absdiff` computes it per pixel. */
  function Dist(a: Byte, b: Byte): Byte
  {
    if a >= b then a - b else b - a
  }

  /** `cv2.absdiff(gray1, gray2)`. */
  function AbsDiff(g1: Plane, g2: Plane): (d: Plane)
    requires SameShape(g1, g2)
    ensures IsGrid(d, |g1|, |g1[0]|)
    ensures forall i, j :: 0 <= i < |g1| && 0 <= j < |g1[0]| ==>
              d[i][j] == g1[i][j] as int - g2[i][j] as int || d[i][j] == g2[i][j] as int - g1[i][j] as int
  {
    seq(|g1|, i requires 0 <= i < |g1| =>
      seq(|g1[i]|, j requires 0 <= j < |g1[i]| => Dist(g1[i][j], g2[i][j])))
  }

  function RowSum(row: seq<Byte>): nat
  {
    if row == [] then 0 else row[0] + RowSum(row[1..])
  }

  /** `np.sum` over a whole plane: zero exactly when every sample is. */
  function PlaneSum(g: Plane): (s: nat)
    ensures s == 0 <==> AllZero(g)
  {
    if g == [] then 0
    else
      RowSumZero(g[0]);
      assert forall i :: 1 <= i < |g| ==> g[i] == g[1..][i - 1];
      RowSum(g[0]) + PlaneSum(g[1..])
  }

  /** Every sample of `g` is zero. */
  predicate AllZero(g: Plane)
  {
    forall i, j :: 0 <= i < |g| && 0 <= j < |g[i]| ==> g[i][j] == 0
  }

  lemma {:induction false} RowSumBound(row: seq<Byte>)
    ensures RowSum(row) <= 255 * |row|
  {
    if row != [] {
      RowSumBound(row[1..]);
    }
  }

  /** A plane of `h` rows of `w` samples sums to at most `255 * h * w`. */
  lemma {:induction false} PlaneSumBound(g: Plane, h: nat, w: nat)
    requires IsGrid(g, h, w)
    ensures PlaneSum(g) <= 255 * (h * w)
  {
    if g != [] {
      RowSumBound(g[0]);
      PlaneSumBound(g[1..], h - 1, w);
      assert 255 * ((h - 1) * w) + 255 * w == 255 * (h * w);
    }
  }

  lemma {:induction false} RowSumZero(row: seq<Byte>)
    ensures RowSum(row) == 0 <==> forall j :: 0 <= j < |row| ==> row[j] == 0
  {
    if row != [] {
      RowSumZero(row[1..]);
      assert forall j :: 1 <= j < |row| ==> row[j] == row[1..][j - 1];
    }
  }

  lemma {:induction false} RowSumConstant(row: seq<Byte>, k: Byte)
    requires forall j :: 0 <= j < |row| ==> row[j] == k
    ensures RowSum(row) == k * |row|
  {
    if row != [] {
      RowSumConstant(row[1..], k);
    }
  }

  /** A plane whose rows each sum to `c` sums to `|g| * c`. */
  lemma {:induction false} PlaneSumOfEqualRows(g: Plane, c: nat)
    requires forall i :: 0 <= i < |g| ==> RowSum(g[i]) == c
    ensures PlaneSum(g) == |g| * c
  {
    if g != [] {
      assert forall i :: 0 <= i < |g| - 1 ==> g[1..][i] == g[i + 1];
      PlaneSumOfEqualRows(g[1..], c);
      assert |g| * c == c + (|g| - 1) * c;
    }
  }

  /** Real division by a positive count keeps a bound on the dividend. */
  lemma QuotientBounds(s: real, n: real, b: real)
    requires n > 0.0 && 0.0 <= s <= b * n
    ensures 0.0 <= s / n <= b
  {
  }

  /** `porcentaje_cambio = np.sum(absdiff(gray1, gray2)) / np.prod(gray1.shape)`:
      the mean absolute grey-level difference. It is not scaled to [0, 1]:
      it ranges over [0, 255]. */
  function ChangeRatio(g1: Plane, g2: Plane): (ratio: real)
    requires SameShape(g1, g2)
    ensures 0.0 <= ratio <= 255.0
  {
    var n := |g1| * |g1[0]|;
    var s := PlaneSum(AbsDiff(g1, g2));
    PlaneSumBound(AbsDiff(g1, g2), |g1|, |g1[0]|);
    QuotientBounds(s as real, n as real, 255.0);
    s as real / n as real
  }

  /** The ratio is zero exactly when the two grey planes are equal. */
  lemma ChangeRatioZeroIffEqual(g1: Plane, g2: Plane)
    requires SameShape(g1, g2)
    ensures ChangeRatio(g1, g2) == 0.0 <==> g1 == g2
  {
    var d := AbsDiff(g1, g2);
    if AllZero(d) {
      forall i | 0 <= i < |g1|
        ensures g1[i] == g2[i]
      {
        assert |g1[i]| == |g2[i]| == |d[i]|;
        forall j | 0 <= j < |g1[i]|
          ensures g1[i][j] == g2[i][j]
        {
          assert d[i][j] == Dist(g1[i][j], g2[i][j]) == 0;
        }
      }
    }
    if g1 == g2 {
      assert AllZero(d);
    }
  }

  /** `absdiff` is symmetric, hence so is the ratio. */
  lemma ChangeRatioSymmetric(g1: Plane, g2: Plane)
    requires SameShape(g1, g2)
    ensures SameShape(g2, g1) && ChangeRatio(g1, g2) == ChangeRatio(g2, g1)
  {
    assert |g2[0]| == |g1[0]|;
    forall i | 0 <= i < |g1|
      ensures AbsDiff(g1, g2)[i] == AbsDiff(g2, g1)[i]
    {
      assert |g1[i]| == |g2[i]|;
      assert forall j :: 0 <= j < |g1[i]| ==> AbsDiff(g1, g2)[i][j] == AbsDiff(g2, g1)[i][j];
    }
    assert AbsDiff(g1, g2) == AbsDiff(g2, g1);
  }

  /** The difference plane of a uniform shift by `k` sums to `k` per pixel. */
  lemma UniformShiftSum(g1: Plane, g2: Plane, k: Byte)
    requires SameShape(g1, g2)
    requires forall i, j :: 0 <= i < |g1| && 0 <= j < |g1[0]| ==> Dist(g1[i][j], g2[i][j]) == k
    ensures PlaneSum(AbsDiff(g1, g2)) == |g1| * (k * |g1[0]|)
  {
    var d := AbsDiff(g1, g2);
    forall i | 0 <= i < |g1|
      ensures RowSum(d[i]) == k * |g1[0]|
    {
      assert |d[i]| == |g1[0]|;
      RowSumConstant(d[i], k);
    }
    PlaneSumOfEqualRows(d, k * |g1[0]|);
  }

  /** When every pixel differs by the same `k` grey levels, the ratio is `k`:
      a uniform shift of a single grey level already gives 1.0. */
  lemma ChangeRatioUniformShift(g1: Plane, g2: Plane, k: Byte)
    requires SameShape(g1, g2)
    requires forall i, j :: 0 <= i < |g1| && 0 <= j < |g1[0]| ==> Dist(g1[i][j], g2[i][j]) == k
    ensures ChangeRatio(g1, g2) == k as real
  {
    var h, w := |g1|, |g1[0]|;
    UniformShiftSum(g1, g2, k);
    MeanOfMultiple(PlaneSum(AbsDiff(g1, g2)), k, h, w);
  }

  /** A sum of `h * w` samples that equals `k` per sample has mean `k`. */
  lemma MeanOfMultiple(sum: nat, k: nat, h: nat, w: nat)
    requires h > 0 && w > 0 && sum == h * (k * w)
    ensures sum as real / (h * w) as real == k as real
  {
    assert sum == k * (h * w);
    var kr, nr := k as real, (h * w) as real;
    assert sum as real == kr * nr;
    QuotientOfMultiple(kr, nr);
  }

  lemma QuotientOfMultiple(k: real, n: real)
    requires n > 0.0
    ensures (k * n) / n == k
  {
  }

  // ---------------------------------------------------------------------------
  // Green-channel histogram and its normalisation
  // ---------------------------------------------------------------------------

  /** `img[:, :, 1]`. */
  function GreenChannel(img: Image): (g: Plane)
    ensures IsGrid(g, |img|, |img[0]|)
    ensures forall i, j :: 0 <= i < |img| && 0 <= j < |img[0]| ==> g[i][j] == img[i][j].c1
  {
    seq(|img|, i requires 0 <= i < |img| => seq(|img[0]|, j requires 0 <= j < |img[0]| => img[i][j].c1))
  }

  /** Number of samples in `row` equal to `v`. */
  function CountRow(row: seq<Byte>, v: Byte): nat
  {
    if row == [] then 0 else (if row[0] == v then 1 else 0) + CountRow(row[1..], v)
  }

  /** Number of samples in `g` equal to `v`: the reference for a bin. */
  function CountPlane(g: Plane, v: Byte): nat
  {
    if g == [] then 0 else CountRow(g[0], v) + CountPlane(g[1..], v)
  }

  /** `calcHist(..., [256], [0, 256])` bins: bin `v` holds the samples in [v, v+1). */
  const BinCount := 256

  function Zeros(n: nat): (z: seq<nat>)
    ensures |z| == n && forall i :: 0 <= i < n ==> z[i] == 0
  {
    seq(n, _ => 0)
  }

  /** One sample `v` lands in bin `v`. */
  function Bump(hist: seq<nat>, v: Byte): (r: seq<nat>)
    requires |hist| == BinCount
    ensures |r| == BinCount
  {
    hist[v := hist[v] + 1]
  }

  function TallyRow(hist: seq<nat>, row: seq<Byte>): (r: seq<nat>)
    requires |hist| == BinCount
    ensures |r| == BinCount
  {
    if row == [] then hist else Bump(TallyRow(hist, row[1..]), row[0])
  }

  /** `cv2.calcHist([plane], [0], None, [256], [0, 256])`: every sample adds
      one to its bin, starting from 256 empty bins. */
  function Histogram(g: Plane): (hist: seq<nat>)
    ensures |hist| == BinCount
  {
    if g == [] then Zeros(BinCount) else TallyRow(Histogram(g[1..]), g[0])
  }

  function Total(hist: seq<nat>): nat
  {
    if hist == [] then 0 else hist[0] + Total(hist[1..])
  }

  function RealTotal(p: seq<real>): real
  {
    if p == [] then 0.0 else p[0] + RealTotal(p[1..])
  }

  lemma {:induction false} TallyRowBin(hist: seq<nat>, row: seq<Byte>, v: Byte)
    requires |hist| == BinCount
    ensures TallyRow(hist, row)[v] == hist[v] + CountRow(row, v)
  {
    if row != [] {
      TallyRowBin(hist, row[1..], v);
    }
  }

  /** Bin `v` counts exactly the samples equal to `v`. */
  lemma {:induction false} HistogramBin(g: Plane, v: Byte)
    ensures Histogram(g)[v] == CountPlane(g, v)
  {
    if g != [] {
      HistogramBin(g[1..], v);
      TallyRowBin(Histogram(g[1..]), g[0], v);
    }
  }

  lemma {:induction false} TotalZeros(n: nat)
    ensures Total(Zeros(n)) == 0
  {
    if n > 0 {
      assert Zeros(n)[1..] == Zeros(n - 1);
      TotalZeros(n - 1);
    }
  }

  lemma {:induction false} TotalIncrement(hist: seq<nat>, v: nat)
    requires v < |hist|
    ensures Total(hist[v := hist[v] + 1]) == Total(hist) + 1
  {
    var bumped := hist[v := hist[v] + 1];
    if v == 0 {
      assert bumped[1..] == hist[1..];
    } else {
      assert bumped[1..] == hist[1..][v - 1 := hist[v] + 1];
      TotalIncrement(hist[1..], v - 1);
    }
  }

  lemma {:induction false} TallyRowTotal(hist: seq<nat>, row: seq<Byte>)
    requires |hist| == BinCount
    ensures Total(TallyRow(hist, row)) == Total(hist) + |row|
  {
    if row != [] {
      TallyRowTotal(hist, row[1..]);
      TotalIncrement(TallyRow(hist, row[1..]), row[0]);
    }
  }

  /** The 256 bins of an `h` by `w` plane add up to `h * w`. */
  lemma {:induction false} HistogramTotal(g: Plane, h: nat, w: nat)
    requires IsGrid(g, h, w)
    ensures Total(Histogram(g)) == h * w
  {
    if g == [] {
      TotalZeros(BinCount);
    } else {
      HistogramTotal(g[1..], h - 1, w);
      TallyRowTotal(Histogram(g[1..]), g[0]);
      assert (h - 1) * w + w == h * w;
    }
  }

  lemma {:induction false} BinAtMostTotal(hist: seq<nat>, i: nat)
    requires i < |hist|
    ensures hist[i] <= Total(hist)
  {
    if i > 0 {
      BinAtMostTotal(hist[1..], i - 1);
    }
  }

  /** Every entry of `hist` divided by `t`. */
  function Scale(hist: seq<nat>, t: real): (p: seq<real>)
    requires t > 0.0
    ensures |p| == |hist|
  {
    seq(|hist|, i requires 0 <= i < |hist| => hist[i] as real / t)
  }

  lemma {:induction false} RealTotalScale(hist: seq<nat>, t: real)
    requires t > 0.0
    ensures RealTotal(Scale(hist, t)) == Total(hist) as real / t
  {
    if hist != [] {
      assert Scale(hist, t)[1..] == Scale(hist[1..], t);
      RealTotalScale(hist[1..], t);
      assert hist[0] as real / t + Total(hist[1..]) as real / t
          == (hist[0] as real + Total(hist[1..]) as real) / t;
    }
  }

  /** `hist / hist.sum()`: a histogram with at least one sample becomes a
      probability distribution. */
  function Normalize(hist: seq<nat>): (p: seq<real>)
    requires Total(hist) > 0
    ensures |p| == |hist|
    ensures forall i :: 0 <= i < |p| ==> 0.0 <= p[i] <= 1.0
    ensures RealTotal(p) == 1.0
  {
    var t := Total(hist) as real;
    forall i | 0 <= i < |hist|
      ensures 0.0 <= hist[i] as real / t <= 1.0
    {
      BinAtMostTotal(hist, i);
      QuotientBounds(hist[i] as real, t, 1.0);
    }
    RealTotalScale(hist, t);
    QuotientOfMultiple(1.0, t);
    assert 1.0 * t == t;
    Scale(hist, t)
  }

  /** The normalised 256-bin histogram of a non-empty plane; it is defined for
      every decoded image because such an image has at least one pixel. */
  function NormalizedHistogram(g: Plane): (p: seq<real>)
    requires IsPlane(g)
    ensures |p| == BinCount
    ensures forall v: Byte :: p[v] == CountPlane(g, v) as real / (|g| * |g[0]|) as real
  {
    HistogramTotal(g, |g|, |g[0]|);
    forall v: Byte
      ensures Histogram(g)[v] == CountPlane(g, v)
    {
      HistogramBin(g, v);
    }
    Normalize(Histogram(g))
  }

  /** `p` gives, for each green level, the fraction of `img`'s pixels at that
      level. */
  ghost predicate IsGreenFrequencies(p: seq<real>, img: Image)
  {
    |p| == BinCount &&
    forall v: Byte :: p[v] == CountPlane(GreenChannel(img), v) as real / (|img| * |img[0]|) as real
  }

  /** `calcular_histograma_correlation`: the library correlation of the two
      images' green-level frequency distributions. */
  function HistogramCorrelation(lib: Library, img1: Image, img2: Image): (r: real)
    ensures exists p, q :: IsGreenFrequencies(p, img1) && IsGreenFrequencies(q, img2) && r == lib.compareHistCorrel(p, q)
  {
    var p := NormalizedHistogram(GreenChannel(img1));
    var q := NormalizedHistogram(GreenChannel(img2));
    assert IsGreenFrequencies(p, img1) && IsGreenFrequencies(q, img2);
    lib.compareHistCorrel(p, q)
  }

  /** `calcular_ssim`: SSIM of the two grey conversions; the argument order
      does not matter when the library's SSIM is symmetric. */
  function GraySsim(lib: Library, img1: Image, img2: Image): (r: real)
    ensures r == lib.ssim(lib.bgrToGray(img1), lib.bgrToGray(img2))
    ensures (forall a: Plane, b: Plane :: lib.ssim(a, b) == lib.ssim(b, a)) ==>
              r == lib.ssim(lib.bgrToGray(img2), lib.bgrToGray(img1))
  {
    lib.ssim(lib.bgrToGray(img1), lib.bgrToGray(img2))
  }

  // ---------------------------------------------------------------------------
  // Metrics and the anomaly decision
  // ---------------------------------------------------------------------------

  datatype Metrics = Metrics(changeRatio: real, psnr: real, ssim: real, histCorrelation: real)

  /** The keyword arguments `threshold`, `psnr_threshold`, `ssim_threshold`
      and `hist_threshold`. */
  datatype Thresholds = Thresholds(change: real, psnr: real, ssim: real, hist: real)

  /** The defaults of `comparar_imagenes`. */
  const DefaultThresholds := Thresholds(0.1, 30.0, 0.8, 0.8)

  /** The four tests; each is strict, so a value equal to its threshold does
      not trigger. */
  predicate ChangeTest(m: Metrics, t: Thresholds) { m.changeRatio > t.change }
  predicate PsnrTest(m: Metrics, t: Thresholds) { m.psnr < t.psnr }
  predicate SsimTest(m: Metrics, t: Thresholds) { m.ssim < t.ssim }
  predicate HistTest(m: Metrics, t: Thresholds) { m.histCorrelation < t.hist }

  /** `anomalía_total`: the OR of the four tests. */
  predicate IsAnomalous(m: Metrics, t: Thresholds): (anomaly: bool)
    ensures !anomaly <==>
              m.changeRatio <= t.change && m.psnr >= t.psnr && m.ssim >= t.ssim && m.histCorrelation >= t.hist
  {
    ChangeTest(m, t) || PsnrTest(m, t) || SsimTest(m, t) || HistTest(m, t)
  }

  /** Any single test forces the verdict, whatever the other three say; with
      all four tests false there is no anomaly. */
  lemma FusionIsOr(m: Metrics, t: Thresholds)
    ensures ChangeTest(m, t) ==> IsAnomalous(m, t)
    ensures PsnrTest(m, t) ==> IsAnomalous(m, t)
    ensures SsimTest(m, t) ==> IsAnomalous(m, t)
    ensures HistTest(m, t) ==> IsAnomalous(m, t)
    ensures !ChangeTest(m, t) && !PsnrTest(m, t) && !SsimTest(m, t) && !HistTest(m, t) ==> !IsAnomalous(m, t)
  {
  }

  /** Metrics sitting exactly on their thresholds are not anomalous. */
  lemma AtThresholdNotAnomalous(t: Thresholds)
    ensures !IsAnomalous(Metrics(t.change, t.psnr, t.ssim, t.hist), t)
  {
  }

  /** Thresholds that let the other three metrics pass. */
  predicate OthersPermissive(m: Metrics, t: Thresholds)
  {
    m.psnr >= t.psnr && m.ssim >= t.ssim && m.histCorrelation >= t.hist
  }

  /** With the other three tests passing, the verdict follows the change
      threshold alone: below the measured ratio it flags, at or above it does
      not. */
  lemma ChangeThresholdDecides(m: Metrics, t: Thresholds)
    requires OthersPermissive(m, t)
    ensures IsAnomalous(m, t) <==> t.change < m.changeRatio
  {
  }

  /** `s` is at least as strict as `t`: it flags every metric value `t` flags. */
  predicate AtLeastAsStrict(s: Thresholds, t: Thresholds)
  {
    s.change <= t.change && s.psnr >= t.psnr && s.ssim >= t.ssim && s.hist >= t.hist
  }

  /** Tightening thresholds never removes an anomaly. */
  lemma StricterThresholdsKeepAnomaly(m: Metrics, s: Thresholds, t: Thresholds)
    requires AtLeastAsStrict(s, t)
    ensures IsAnomalous(m, t) ==> IsAnomalous(m, s)
  {
  }

  /** With the default threshold of 0.1, a mean difference of one grey level
      (for instance a uniform brightness shift of 1) is already an anomaly,
      because the ratio is on the [0, 255] scale. */
  lemma OneGreyLevelIsAnomalousByDefault(g1: Plane, g2: Plane, psnr: real, ssim: real, hist: real)
    requires SameShape(g1, g2)
    requires forall i, j :: 0 <= i < |g1| && 0 <= j < |g1[0]| ==> Dist(g1[i][j], g2[i][j]) == 1
    ensures IsAnomalous(Metrics(ChangeRatio(g1, g2), psnr, ssim, hist), DefaultThresholds)
  {
    ChangeRatioUniformShift(g1, g2, 1);
  }

  /** The four metrics of two same-shaped images, as lines 62-80 compute them. */
  function ComputeMetrics(lib: Library, img1: Image, img2: Image): (m: Metrics)
    requires GrayKeepsShape(lib)
    requires ShapeOf(img1) == ShapeOf(img2)
    ensures 0.0 <= m.changeRatio <= 255.0
    ensures m.changeRatio == 0.0 <==> lib.bgrToGray(img1) == lib.bgrToGray(img2)
    ensures SameShape(lib.bgrToGray(img1), lib.bgrToGray(img2)) &&
            m == Metrics(ChangeRatio(lib.bgrToGray(img1), lib.bgrToGray(img2)), lib.psnr(img1, img2),
                         GraySsim(lib, img1, img2), HistogramCorrelation(lib, img1, img2))
  {
    var gray1 := lib.bgrToGray(img1);
    var gray2 := lib.bgrToGray(img2);
    assert IsGrid(gray1, |img1|, |img1[0]|) && IsGrid(gray2, |img2|, |img2[0]|);
    ChangeRatioZeroIffEqual(gray1, gray2);
    Metrics(ChangeRatio(gray1, gray2), lib.psnr(img1, img2), GraySsim(lib, img1, img2),
            HistogramCorrelation(lib, img1, img2))
  }

  // ---------------------------------------------------------------------------
  // The returned dictionary and the orchestration
  // ---------------------------------------------------------------------------

  /** A value of the returned Python dictionary. */
  datatype PyValue = PyNone | PyBool(b: bool) | PyFloat(x: real)

  type Report = map<string, PyValue>

  /** The mismatch branch spells the verdict key with an accent, the normal
      branch without one. */
  const KeyAnomalyAccented := "anomalía"
  const KeyAnomaly := "anomalia"
  const KeyPsnr := "psnr"
  const KeySsim := "ssim"
  const KeyChange := "porcentaje_cambio"
  const KeyHist := "histograma"

  /** Line 59: no metric is computed; there is no `porcentaje_cambio` entry. */
  const MismatchReport: Report :=
    map[KeyAnomalyAccented := PyBool(true), KeyPsnr := PyNone, KeySsim := PyNone, KeyHist := PyNone]

  /** Lines 86-92 (the six-digit rounding is not modelled): every entry holds
      a value, and the keys are those of the mismatch report with the verdict
      key spelt without its accent and `porcentaje_cambio` added. */
  function MeasuredReport(anomaly: bool, m: Metrics): (r: Report)
    ensures r.Keys == MismatchReport.Keys - {KeyAnomalyAccented} + {KeyAnomaly, KeyChange}
    ensures forall k :: k in r ==> r[k] != PyNone
    ensures KeyAnomaly in r && r[KeyAnomaly] == PyBool(anomaly)
    ensures r[KeyPsnr] == PyFloat(m.psnr) && r[KeySsim] == PyFloat(m.ssim)
    ensures r[KeyChange] == PyFloat(m.changeRatio) && r[KeyHist] == PyFloat(m.histCorrelation)
  {
    map[KeyAnomaly := PyBool(anomaly), KeyPsnr := PyFloat(m.psnr), KeySsim := PyFloat(m.ssim),
        KeyChange := PyFloat(m.changeRatio), KeyHist := PyFloat(m.histCorrelation)]
  }

  /** `comparar_imagenes`: `None` when either image fails to load, the fixed
      mismatch report when the shapes differ, and otherwise the metrics with
      the OR of the four threshold tests. */
  function CompareImages(f: Fetcher, lib: Library, url1: string, url2: string, t: Thresholds): (r: Option<Report>)
    requires GrayKeepsShape(lib)
    ensures r.None? <==> LoadImage(f, url1).None? || LoadImage(f, url2).None?
    ensures r.Some? && ShapeOf(LoadImage(f, url1).value) != ShapeOf(LoadImage(f, url2).value) ==>
              r.value == MismatchReport
    ensures r.Some? && ShapeOf(LoadImage(f, url1).value) == ShapeOf(LoadImage(f, url2).value) ==>
              var m := ComputeMetrics(lib, LoadImage(f, url1).value, LoadImage(f, url2).value);
              r.value.Keys == {KeyAnomaly, KeyPsnr, KeySsim, KeyChange, KeyHist} &&
              r.value[KeyAnomaly] == PyBool(IsAnomalous(m, t)) &&
              r.value[KeyChange] == PyFloat(m.changeRatio) &&
              r.value == MeasuredReport(IsAnomalous(m, t), m)
  {
    var img1 := LoadImage(f, url1);
    var img2 := LoadImage(f, url2);
    if img1.None? || img2.None? then None
    else if ShapeOf(img1.value) != ShapeOf(img2.value) then Some(MismatchReport)
    else
      var m := ComputeMetrics(lib, img1.value, img2.value);
      Some(MeasuredReport(IsAnomalous(m, t), m))
  }

  /** A failed load gives `None` whatever the library and thresholds are:
      no metric and no threshold is consulted. */
  lemma LoadFailureIsInconclusive(f: Fetcher, lib1: Library, lib2: Library, url1: string, url2: string,
                                  t1: Thresholds, t2: Thresholds)
    requires GrayKeepsShape(lib1) && GrayKeepsShape(lib2)
    requires LoadImage(f, url1).None? || LoadImage(f, url2).None?
    ensures CompareImages(f, lib1, url1, url2, t1) == None
    ensures CompareImages(f, lib2, url1, url2, t2) == None
  {
  }

  /** Differently shaped images are an anomaly whatever the library and the
      thresholds are; the three metric entries are `None`, and the report has
      neither `porcentaje_cambio` nor the unaccented `anomalia` key that the
      normal branch uses. */
  lemma ShapeMismatchShortCircuits(f: Fetcher, lib: Library, url1: string, url2: string, t: Thresholds)
    requires GrayKeepsShape(lib)
    requires LoadImage(f, url1).Some? && LoadImage(f, url2).Some?
    requires ShapeOf(LoadImage(f, url1).value) != ShapeOf(LoadImage(f, url2).value)
    ensures CompareImages(f, lib, url1, url2, t) == Some(MismatchReport)
    ensures MismatchReport[KeyAnomalyAccented] == PyBool(true)
    ensures MismatchReport[KeyPsnr] == PyNone && MismatchReport[KeySsim] == PyNone && MismatchReport[KeyHist] == PyNone
    ensures KeyChange !in MismatchReport && KeyAnomaly !in MismatchReport
  {
    assert KeyAnomaly != KeyAnomalyAccented by { assert KeyAnomaly[6] != KeyAnomalyAccented[6]; }
  }

  /** The same picture at both locations: `porcentaje_cambio` is 0.0, so only
      PSNR, SSIM or the histogram correlation can raise an anomaly. */
  lemma SameImageNoChange(f: Fetcher, lib: Library, url1: string, url2: string, t: Thresholds)
    requires GrayKeepsShape(lib)
    requires LoadImage(f, url1).Some? && LoadImage(f, url1) == LoadImage(f, url2)
    requires t.change >= 0.0
    ensures CompareImages(f, lib, url1, url2, t).Some?
    ensures CompareImages(f, lib, url1, url2, t).value[KeyChange] == PyFloat(0.0)
    ensures !ChangeTest(ComputeMetrics(lib, LoadImage(f, url1).value, LoadImage(f, url2).value), t)
  {
  }

  /** PSNR, SSIM and the histogram correlation give the same value for both
      argument orders. */
  ghost predicate SymmetricMetrics(lib: Library)
  {
    && (forall a: Image, b: Image :: lib.psnr(a, b) == lib.psnr(b, a))
    && (forall a: Plane, b: Plane :: lib.ssim(a, b) == lib.ssim(b, a))
    && (forall p: seq<real>, q: seq<real> :: lib.compareHistCorrel(p, q) == lib.compareHistCorrel(q, p))
  }

  /** The change ratio is symmetric by construction; if the three library
      metrics are symmetric too, swapping the two locations gives the same
      report. */
  lemma CompareImagesSymmetric(f: Fetcher, lib: Library, url1: string, url2: string, t: Thresholds)
    requires GrayKeepsShape(lib) && SymmetricMetrics(lib)
    ensures CompareImages(f, lib, url1, url2, t) == CompareImages(f, lib, url2, url1, t)
  {
    var img1, img2 := LoadImage(f, url1), LoadImage(f, url2);
    if img1.Some? && img2.Some? && ShapeOf(img1.value) == ShapeOf(img2.value) {
      var a, b := img1.value, img2.value;
      var gray1, gray2 := lib.bgrToGray(a), lib.bgrToGray(b);
      assert IsGrid(gray1, |a|, |a[0]|) && IsGrid(gray2, |b|, |b[0]|);
      ChangeRatioSymmetric(gray1, gray2);
      assert ComputeMetrics(lib, a, b) == ComputeMetrics(lib, b, a);
    }
  }
}
