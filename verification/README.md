# SUDEA image comparator and upload checks, in Dafny

This project models the decision logic of a scene-monitoring service. Photographs of a fixed
scene are uploaded one after another. Each new photograph is compared with the previous one, and
the comparison says whether the scene changed ("anomaly").

Two source files are modelled:

- `Comparador_Img.py` — the comparator. `comparar_imagenes` loads both images. It answers `None`
  when a download returns a status other than 200 or the decoder returns `None`. Failures that
  raise an exception instead (a connection error, an empty body, an image too small for SSIM) are
  outside the model; see "Left out". When the shapes differ it returns a fixed anomaly report.
  Otherwise it computes four metrics: the mean absolute grey-level difference
  (`porcentaje_cambio`), PSNR, SSIM and the correlation of the green-channel histograms. Each
  metric is tested against its threshold, and the verdict is the OR of the four tests.
  Module `ImageComparator` (`image_comparator.dfy`).
- `PruebasV4_Servidor.py` — three string routines of the upload server: the extension filter
  `allowed_file`, the validation cascade at the head of `subir_imagen`, and the rewrite of a
  `postgres://` database URL to `postgresql://`. Module `UploadServer` (`upload_server.dfy`).

`Wrappers` (`wrappers.dfy`) holds the `Option` type that stands for Python's `None`.

Everything modelled is pure, so it is written as datatypes, functions and lemmas. There are no
classes and no loops.

How the model represents the source:

- Images are non-empty rectangular grids of three-channel pixels with samples in 0..255 (the
  subset type `Image`). A decoded colour image always has three channels, so two shapes differ
  exactly when the heights or the widths differ.
- The grey-level difference and the histogram are modelled exactly. Sums and divisions are
  exact: integers and `real`s.
- Library calls and I/O become function-valued fields of two datatypes passed as parameters.
  `Fetcher` holds `requests.get` and `cv2.imdecode`. `Library` holds `cv2.cvtColor` to grey,
  `cv2.PSNR`, scikit-image's `structural_similarity` and `cv2.compareHist(..., HISTCMP_CORREL)`.
  The comparator assumes one thing about them (`GrayKeepsShape`): the grey conversion keeps the
  height and width of its input.
- The returned dictionary is a `map<string, PyValue>`. This keeps its keys exactly as written.

Where the written code and the intended behaviour of the system (what the comparator is meant
to report) differ, the model follows the code:

- A shape mismatch is meant to report all four metrics as undetermined. The code (line 59)
  sets `psnr`, `ssim` and `histograma` to `None`. It leaves out `porcentaje_cambio` altogether.
  It also spells the verdict key `"anomalía"`, with an accent. The normal branch (line 87) spells
  it `"anomalia"`, without one. `ShapeMismatchShortCircuits` states this.
- A failed fetch is meant never to raise and to yield `None`. The code calls `requests.get`
  without a `try` (line 8), so a transport error raises out of `comparar_imagenes`. The model
  covers only the failures the code turns into `None`.
- The pixel change ratio is meant to be normalised and typically small. The code divides the
  sum of absolute grey differences by the pixel count only. The result is a mean grey level in
  [0, 255], compared against a default threshold of 0.1. `ChangeRatio` and
  `OneGreyLevelIsAnomalousByDefault` state this: a uniform shift of one grey level is already an
  anomaly under the defaults.

## Model

| member | source | states |
|---|---|---|
| `ImageComparator.LoadImage` | Comparador_Img.py:6-15 | a response status other than 200 gives no image; for status 200 the result is exactly what the decoder makes of the response body (an image or `None`) |
| `ImageComparator.ShapeOf` | Comparador_Img.py:58 | the shape of a decoded image has positive height and width, three channels, and describes its grid: that many rows of that many pixels |
| `ImageComparator.ChangeRatio` | Comparador_Img.py:62-67 | the mean absolute grey-level difference lies in [0, 255], not in [0, 1] |
| `ImageComparator.AbsDiff` | Comparador_Img.py:66 | the difference plane has the shape of its inputs, and each entry is the absolute difference of the two samples |
| `ImageComparator.PlaneSum` | Comparador_Img.py:67 | the sum of a plane's samples is zero exactly when every sample is zero |
| `ImageComparator.PlaneSumBound` | Comparador_Img.py:66-67 | the sum of an h by w plane of 8-bit samples is at most 255·h·w |
| `ImageComparator.ChangeRatioZeroIffEqual` | Comparador_Img.py:66-67 | the change ratio is 0 exactly when the two grey planes are equal (both directions) |
| `ImageComparator.ChangeRatioSymmetric` | Comparador_Img.py:66-67 | swapping the two grey planes leaves the change ratio unchanged, because `absdiff` is symmetric |
| `ImageComparator.ChangeRatioUniformShift` | Comparador_Img.py:66-67 | when every pixel differs by the same k grey levels, the ratio is exactly k |
| `ImageComparator.GreenChannel` | Comparador_Img.py:33-34 | the extracted plane has the image's height and width, and holds each pixel's channel-1 value |
| `ImageComparator.Histogram` | Comparador_Img.py:37-38 | `calcHist` with 256 bins over [0, 256) yields exactly 256 bins |
| `ImageComparator.HistogramBin` | Comparador_Img.py:37-38 | bin v counts exactly the samples equal to v (independent counting definition) |
| `ImageComparator.HistogramTotal` | Comparador_Img.py:37-38 | the 256 bins of an h by w plane add up to h·w |
| `ImageComparator.Normalize` | Comparador_Img.py:41-42 | dividing by `hist.sum()` gives entries in [0, 1] that add up to 1, for any histogram with at least one sample |
| `ImageComparator.NormalizedHistogram` | Comparador_Img.py:33-42 | for a non-empty plane, normalised bin v is the fraction of samples equal to v |
| `ImageComparator.IsAnomalous` | Comparador_Img.py:68-83 | there is no anomaly exactly when the change ratio is at most its threshold and PSNR, SSIM and correlation are each at least theirs |
| `ImageComparator.HistogramCorrelation` | Comparador_Img.py:31-47 | the result is the library correlation of two 256-entry sequences that give, for each green level, the fraction of each image's pixels at that level |
| `ImageComparator.GraySsim` | Comparador_Img.py:22-28 | SSIM is taken of the two grey conversions, not of the colour images; when the library's SSIM is symmetric, so is the result |
| `ImageComparator.FusionIsOr` | Comparador_Img.py:68-83 | any one of the four tests forces an anomaly whatever the other three say; with all four false there is none |
| `ImageComparator.AtThresholdNotAnomalous` | Comparador_Img.py:68-80 | the tests are strict: metrics equal to their thresholds do not trigger |
| `ImageComparator.ChangeThresholdDecides` | Comparador_Img.py:68-83 | with PSNR, SSIM and correlation at or above their thresholds, the verdict is exactly "threshold below the measured ratio" |
| `ImageComparator.StricterThresholdsKeepAnomaly` | Comparador_Img.py:68-83 | tightening any threshold never removes an anomaly |
| `ImageComparator.OneGreyLevelIsAnomalousByDefault` | Comparador_Img.py:50-68 | under the default threshold 0.1, images differing by one grey level at every pixel are an anomaly whatever PSNR, SSIM and correlation are |
| `ImageComparator.ComputeMetrics` | Comparador_Img.py:61-80 | the four metrics are the change ratio of the two grey conversions, the library PSNR of the colour images, SSIM of the grey conversions and the correlation of the green-level frequencies; the change ratio is in [0, 255] and is 0 exactly when the grey conversions are equal |
| `ImageComparator.CompareImages` | Comparador_Img.py:50-92 | `None` exactly when either load fails; the fixed mismatch report when shapes differ; otherwise the measured report of the four metrics, with `anomalia` the OR of the four tests and `porcentaje_cambio` the change ratio |
| `ImageComparator.MeasuredReport` | Comparador_Img.py:86-92 | every entry holds a value; the keys are the mismatch report's keys with the verdict key spelt `anomalia` and `porcentaje_cambio` added; `anomalia` holds the verdict, and `psnr`, `ssim`, `porcentaje_cambio` and `histograma` hold PSNR, SSIM, the change ratio and the histogram correlation respectively |
| `ImageComparator.LoadFailureIsInconclusive` | Comparador_Img.py:52-56 | a failed load gives `None` for every library and every threshold setting: no metric and no threshold is consulted |
| `ImageComparator.ShapeMismatchShortCircuits` | Comparador_Img.py:58-59 | differing shapes give the mismatch report for every library and threshold setting; its verdict under the accented key is true, `psnr`, `ssim`, `histograma` are `None`, and it has no `porcentaje_cambio` and no unaccented `anomalia` key |
| `ImageComparator.SameImageNoChange` | Comparador_Img.py:62-68 | the same image at both locations gives `porcentaje_cambio` 0.0, so with a non-negative change threshold the change test cannot fire |
| `ImageComparator.CompareImagesSymmetric` | Comparador_Img.py:50-92 | if PSNR, SSIM and correlation are symmetric, swapping the two locations gives the same result |
| `UploadServer.AllowedExtensionsMembers` | PruebasV4_Servidor.py:22 | the allowed extensions are exactly png, jpg, jpeg and gif |
| `UploadServer.LastIndexOf` | PruebasV4_Servidor.py:52 | finds the last occurrence of a character, or -1 exactly when there is none |
| `UploadServer.RSplitOnce` | PruebasV4_Servidor.py:52 | `rsplit(sep, 1)` returns the whole string when there is no separator; otherwise two parts that rejoin to the input, the second free of separators |
| `UploadServer.Lower` | PruebasV4_Servidor.py:52 | lower-casing keeps the length and maps each character through ASCII lower-casing |
| `UploadServer.AllowedFile` | PruebasV4_Servidor.py:51-52 | an accepted name contains a dot, and the text after its last dot has three or four characters |
| `UploadServer.AllowedFileBySuffix` | PruebasV4_Servidor.py:51-52 | a name is accepted exactly when the text after its last dot, lower-cased, is an allowed extension; the text before that dot is irrelevant |
| `UploadServer.AcceptedExtensions` | PruebasV4_Servidor.py:51-52 | the suffix after the last dot is accepted exactly when its lower-case form is png, jpg, jpeg or gif |
| `UploadServer.NoDotRejected` | PruebasV4_Servidor.py:52 | a name without a dot is rejected |
| `UploadServer.TrailingDotRejected` | PruebasV4_Servidor.py:52 | a name ending in a dot has an empty suffix and is rejected |
| `UploadServer.AllowedFileCaseInsensitive` | PruebasV4_Servidor.py:52 | lower-casing the whole name does not change the verdict |
| `UploadServer.DoubleExtensionRejected` | PruebasV4_Servidor.py:52 | `a.png.exe` is rejected |
| `UploadServer.BackupStemAccepted` | PruebasV4_Servidor.py:52 | `a.bak.jpg` is accepted |
| `UploadServer.UpperCaseExample` | PruebasV4_Servidor.py:52 | `X.JPEG` is accepted |
| `UploadServer.EmptyStemExample` | PruebasV4_Servidor.py:52 | `.png` is accepted |
| `UploadServer.ValidateUpload` | PruebasV4_Servidor.py:73-84 | the upload proceeds exactly when a `file` field exists and its name passes `allowed_file`; it then carries that file and a non-empty name; every rejection is a 400 |
| `UploadServer.ValidationOrder` | PruebasV4_Servidor.py:73-82 | a missing field is reported first, then an empty name, then a disallowed extension, each with its own message |
| `UploadServer.EmptyNameAlsoFailsExtension` | PruebasV4_Servidor.py:78-82 | the empty name would fail the extension test too, so the empty-name test only selects the message |
| `UploadServer.RewriteDatabaseUrl` | PruebasV4_Servidor.py:17-18 | a URL starting with `postgres://` becomes one that starts with `postgresql://` and contains `postgres://` nowhere; any other URL is unchanged; the result never starts with `postgres://` |
| `UploadServer.StartsWith` | PruebasV4_Servidor.py:17 | `startswith(p)` holds exactly when the string is `p` followed by some text |
| `UploadServer.DatabaseUrl` | PruebasV4_Servidor.py:16-18 | an unset variable gives the local SQLite default; a set value is passed through the scheme rewrite, so one not starting with `postgres://` is used unchanged |
| `UploadServer.RewriteIdempotent` | PruebasV4_Servidor.py:17-18 | rewriting twice equals rewriting once |
| `UploadServer.ReplaceAll` | PruebasV4_Servidor.py:18 | `replace` leaves text that does not contain the pattern unchanged |
| `UploadServer.ReplaceAllAtOccurrence` | PruebasV4_Servidor.py:18 | an occurrence at the front is replaced and scanning resumes after it |
| `UploadServer.RewriteOnlyScheme` | PruebasV4_Servidor.py:17-18 | when the rest of the URL does not repeat `postgres://`, only the scheme changes |
| `UploadServer.ReplaceAllTwoOccurrences` | PruebasV4_Servidor.py:18 | two occurrences of the pattern, separated by text that cannot start it, are both replaced and nothing else changes |
| `UploadServer.ReplaceAllLeavesNoOccurrence` | PruebasV4_Servidor.py:18 | when the replacement cannot bring the pattern back (as `postgresql://` cannot bring back `postgres://`), no occurrence of the pattern is left anywhere in the output |
| `UploadServer.RewriteReplacesLaterCopies` | PruebasV4_Servidor.py:18 | a second copy of `postgres://` after a host without the letter `p`, with no further copy after it, is rewritten as well: `replace` is not limited to the scheme |

## Left out

- The network download and the decoding (`requests.get`, `np.frombuffer`, `cv2.imdecode`) are I/O. They are the parameter `Fetcher`. The model keeps only the status-200 test and the decoder's may-fail result.
- The error message printed for a status other than 200 (line 10) is console output and is not modelled; only the `None` result is.
- ImageComparator.LoadImage: `Fetcher.get` is a function of the URL, so the same URL always yields the same response within one comparison. A real server may answer two requests differently; `CompareImagesSymmetric` and `SameImageNoChange` rely on this simplification.
- ImageComparator.LoadImage: `requests.get` at line 8 has no `try` and no timeout. A connection error raises out of `comparar_imagenes`, and a stalled server makes the call hang. The model's `get` always returns a response, so it does not capture either.
- ImageComparator.LoadImage: a status-200 response with an empty body makes `cv2.imdecode` (line 14) raise `cv2.error` instead of returning `None`. The model's decoder only returns an image or `None`, so this exception is not modelled.
- ImageComparator.CompareImages: scikit-image's `structural_similarity` (line 27) uses a 7-by-7 window by default and raises `ValueError` for images smaller than 7 pixels on a side. In the model SSIM is a total library function, so for such images `CompareImages` returns a report where the source raises.
- `cv2.PSNR`, scikit-image's `structural_similarity` and `cv2.compareHist` are foreign library code with logarithms, square roots, sliding windows and floating point. They are uninterpreted fields of `Library`. So the model proves nothing about their values: not PSNR's value for identical images, not the [-1, 1] range of SSIM or correlation, and not that normalising the histograms before the correlation changes nothing.
- The BGR-to-grey weights and rounding of `cv2.cvtColor` are library behaviour. The model assumes only that the result has the same height and width (`GrayKeepsShape`), with samples in 0..255.
- ImageComparator.MeasuredReport: `round(x, 6)` and `float(...)` at lines 88-91 are not modelled; values are stored unrounded.
- Floating point is modelled as exact real arithmetic. NaN, infinities and the float32 rounding of `hist.sum()` are not modelled.
- The unused second result of `structural_similarity` (the full similarity map) is not modelled.
- UploadServer.Lower: Python's `str.lower()` is Unicode-aware; the model lower-cases ASCII letters only. The verdict of `allowed_file` is not affected: the only character outside ASCII whose lower case is a single ASCII letter is the Kelvin sign, which becomes `k`, and no allowed extension contains `k`. This argument is not proved in Dafny.
- `secure_filename` (line 84) is Werkzeug code that is not part of this model; `ValidateUpload` stops where it would be called.
- Werkzeug's `request.files` is a multi-dictionary. The model keeps one file per field name, the one `request.files['file']` returns.
- The rest of the server is framework, persistence or I/O plumbing and is not modelled: the Flask app and routes past validation, the Cloudinary upload, the SQLAlchemy model and `db.session` commits, `marcar_anomalia`, the e-mail sender `enviar_correo`, time-zone timestamps and the reading of environment variables (the `DATABASE_URL` value is the parameter of `DatabaseUrl`).
