/**
 * VisualTestHelper.java: the artifact file names of the full-page and element
 * screenshots, and the exact pixel comparator `compareScreenshots`.
 * Capturing, PNG encoding and decoding and the file system are not modelled: a
 * name is a string, a clock reading is an input, an image arrives already decoded.
 */
module VisualTestHelper {
  import opened Wrappers
  import opened Digits
  import opened Text

  const ScreenshotDir := "target/screenshots"

  /** Full-page artifact: the directory, a slash, the test name, an underscore, the clock reading in milliseconds, then `.png`. */
  function FullPageName(testName: string, millis: int): (name: string)
    ensures |name| > |ScreenshotDir| + 5
    ensures name[..|ScreenshotDir| + 1] == ScreenshotDir + "/"
    ensures name[|name| - 4..] == ".png"
  {
    ScreenshotDir + "/" + testName + "_" + IntToString(millis) + ".png"
  }

  /** Element artifact: as the full-page layout, with `_element_` between the test name and the clock reading. */
  function ElementName(testName: string, millis: int): (name: string)
    ensures |name| > |ScreenshotDir| + 5
    ensures name[..|ScreenshotDir| + 1] == ScreenshotDir + "/"
    ensures name[|name| - 4..] == ".png"
    ensures name == FullPageName(testName + "_element", millis)
  {
    assert testName + "_element_" == testName + "_element" + "_";
    ScreenshotDir + "/" + testName + "_element_" + IntToString(millis) + ".png"
  }

  /**
   * Recovers the test name and clock reading from a full-page artifact name: the clock
   * reading is everything after the last underscore, so a test name may itself hold underscores.
   */
  function ParseFullPageName(name: string): (r: Option<(string, int)>)
  {
    var prefix := ScreenshotDir + "/";
    if |name| < |prefix| + 4 || name[..|prefix|] != prefix || name[|name| - 4..] != ".png" then None
    else
      var middle := name[|prefix|..|name| - 4];
      match LastIndexOf(middle, '_')
      case None => None
      case Some(k) =>
        match ParseInt(middle[k + 1..])
        case None => None
        case Some(millis) => Some((middle[..k], millis))
  }

  lemma FullPageNameRoundTrip(testName: string, millis: int)
    ensures ParseFullPageName(FullPageName(testName, millis)) == Some((testName, millis))
  {
    var name := FullPageName(testName, millis);
    var prefix := ScreenshotDir + "/";
    var digits := IntToString(millis);
    var middle := name[|prefix|..|name| - 4];
    assert middle == testName + "_" + digits;
    var k := |testName|;
    LastIndexOfBeforeTail(testName, '_', digits);
    assert middle[k + 1..] == digits;
    assert middle[..k] == testName;
    IntToStringRoundTrip(millis);
  }

  /** Two full-page captures share a file name exactly when test name and clock reading both agree. */
  lemma FullPageNameInjective(t1: string, m1: int, t2: string, m2: int)
    ensures FullPageName(t1, m1) == FullPageName(t2, m2) <==> t1 == t2 && m1 == m2
  {
    FullPageNameRoundTrip(t1, m1);
    FullPageNameRoundTrip(t2, m2);
  }

  /** Two element captures share a file name exactly when test name and clock reading both agree. */
  lemma ElementNameInjective(t1: string, m1: int, t2: string, m2: int)
    ensures ElementName(t1, m1) == ElementName(t2, m2) <==> t1 == t2 && m1 == m2
  {
    FullPageNameInjective(t1 + "_element", m1, t2 + "_element", m2);
    assert t1 == (t1 + "_element")[..|t1|];
    assert t2 == (t2 + "_element")[..|t2|];
  }

  /** A decoded `BufferedImage`: `pixels[x][y]` is `getRGB(x, y)`. */
  datatype Image = Image(width: nat, height: nat, pixels: seq<seq<int>>)

  predicate Valid(img: Image) {
    && |img.pixels| == img.width
    && forall x :: 0 <= x < img.width ==> |img.pixels[x]| == img.height
  }

  /** The outcome of `ImageIO.read`: a decoded image, or an `IOException`. */
  datatype Loaded = Decoded(image: Image) | ReadFailed

  predicate SameSize(a: Image, b: Image) {
    a.width == b.width && a.height == b.height
  }

  /** Equal dimensions and equal colour at every coordinate. */
  predicate SamePixels(a: Image, b: Image)
    requires Valid(a) && Valid(b)
  {
    && SameSize(a, b)
    && forall x, y :: 0 <= x < a.width && 0 <= y < a.height ==> a.pixels[x][y] == b.pixels[x][y]
  }

  predicate WellFormed(l: Loaded) {
    l.Decoded? ==> Valid(l.image)
  }

  /** What `compareScreenshots` answers: both files read, and the images equal pixel for pixel. */
  predicate Matches(baseline: Loaded, actual: Loaded)
    requires WellFormed(baseline) && WellFormed(actual)
  {
    baseline.Decoded? && actual.Decoded? && SamePixels(baseline.image, actual.image)
  }

  /**
   * `compareScreenshots`: a read failure answers false; a size difference answers false
   * before any pixel is read; otherwise columns are scanned left to right, each top to
   * bottom, stopping at the first differing pixel. `probes` counts the pixel pairs compared.
   */
  method CompareScreenshots(baseline: Loaded, actual: Loaded) returns (same: bool, probes: nat)
    requires WellFormed(baseline) && WellFormed(actual)
    ensures same <==> Matches(baseline, actual)
    ensures baseline.ReadFailed? || actual.ReadFailed? ==> probes == 0
    ensures baseline.Decoded? && actual.Decoded? && !SameSize(baseline.image, actual.image) ==> probes == 0
    ensures same ==> probes == baseline.image.width * baseline.image.height
    ensures !same && probes > 0 ==> probes <= baseline.image.width * baseline.image.height
  {
    if baseline.ReadFailed? || actual.ReadFailed? {
      return false, 0;
    }
    var a, b := baseline.image, actual.image;
    if a.width != b.width || a.height != b.height {
      return false, 0;
    }
    probes := 0;
    var x := 0;
    while x < a.width
      invariant 0 <= x <= a.width
      invariant probes == x * a.height
      invariant forall i, j :: 0 <= i < x && 0 <= j < a.height ==> a.pixels[i][j] == b.pixels[i][j]
    {
      var y := 0;
      while y < a.height
        invariant 0 <= y <= a.height
        invariant probes == x * a.height + y
        invariant forall j :: 0 <= j < y ==> a.pixels[x][j] == b.pixels[x][j]
      {
        probes := probes + 1;
        if a.pixels[x][y] != b.pixels[x][y] {
          assert x * a.height + y < a.width * a.height by {
            assert x * a.height + y < (x + 1) * a.height;
            assert (x + 1) * a.height <= a.width * a.height;
          }
          return false, probes;
        }
        y := y + 1;
      }
      x := x + 1;
    }
    return true, probes;
  }

  /** Comparing an image with itself always matches. */
  lemma MatchesReflexive(img: Image)
    requires Valid(img)
    ensures Matches(Decoded(img), Decoded(img))
  {
  }

  lemma MatchesSymmetric(a: Loaded, b: Loaded)
    requires WellFormed(a) && WellFormed(b)
    ensures Matches(a, b) <==> Matches(b, a)
  {
  }

  /** Images of different sizes never match, whatever their pixels. */
  lemma SizeMismatchNeverMatches(a: Image, b: Image)
    requires Valid(a) && Valid(b)
    requires !SameSize(a, b)
    ensures !Matches(Decoded(a), Decoded(b))
  {
  }

  /** Changing a single pixel of an image is always detected. */
  lemma OnePixelDifferenceDetected(img: Image, x: nat, y: nat, colour: int)
    requires Valid(img)
    requires x < img.width && y < img.height
    requires colour != img.pixels[x][y]
    ensures var changed := Image(img.width, img.height, img.pixels[x := img.pixels[x][y := colour]]);
      Valid(changed) && !Matches(Decoded(img), Decoded(changed))
  {
  }

  /** A file that cannot be read never produces a spurious match. */
  lemma ReadFailureNeverMatches(other: Loaded)
    requires WellFormed(other)
    ensures !Matches(ReadFailed, other) && !Matches(other, ReadFailed)
  {
  }
}
