/**
 * ScreenshotHelper.java: the `yyyyMMdd_HHmmss_SSS` timestamp that
 * `DateTimeFormatter.ofPattern` prints for a `LocalDateTime`, and the artifact name
 * built from it. The clock reading is an input; capture and copying are not modelled.
 */
module ScreenshotHelper {
  import opened Wrappers
  import opened Digits
  import opened Text

  const ScreenshotDir := "target/screenshots"

  /** The `LocalDateTime` fields the pattern prints; `millisecond` is the fraction of second shown by `SSS`. */
  datatype DateTime = DateTime(year: int, month: nat, day: nat, hour: nat, minute: nat, second: nat, millisecond: nat)

  /** The ranges `LocalDateTime` enforces (the day is bounded by 31 whatever the month). */
  predicate InRange(t: DateTime) {
    && -999_999_999 <= t.year <= 999_999_999
    && 1 <= t.month <= 12
    && 1 <= t.day <= 31
    && t.hour < 24
    && t.minute < 60
    && t.second < 60
    && t.millisecond < 1000
  }

  /** Pattern letter `y` prints the year of era: years up to 0 are counted backwards from 1 BCE. */
  function YearOfEra(year: int): (yoe: nat)
    ensures 1 <= yoe
    ensures year >= 1 ==> yoe == year
  {
    if year >= 1 then year else 1 - year
  }

  /** `yyyy`: at least four digits, zero-padded, and a leading `+` once the value needs a fifth. */
  function YearField(year: int): (s: string)
    ensures 4 <= |s|
    ensures forall k :: 0 <= k < |s| ==> IsDigit(s[k]) || (k == 0 && s[k] == '+')
  {
    var yoe := YearOfEra(year);
    if yoe < 10000 then Padded(yoe, 4)
    else
      NatToStringLength(yoe, 4);
      "+" + NatToString(yoe)
  }

  /** `MMdd_HHmmss_SSS`: the fixed-width part after the year. */
  function ClockFields(t: DateTime): (s: string)
    ensures |s| == 15
    ensures forall k :: 0 <= k < 15 ==> (s[k] == '_' <==> k == 4 || k == 11)
    ensures forall k :: 0 <= k < 15 && k != 4 && k != 11 ==> IsDigit(s[k])
  {
    Padded(t.month, 2) + Padded(t.day, 2) + "_" + Padded(t.hour, 2) + Padded(t.minute, 2)
      + Padded(t.second, 2) + "_" + Padded(t.millisecond, 3)
  }

  /** The year of era, month and day, an underscore, hour, minute and second, an underscore, then the millisecond; every field zero-padded. */
  function Timestamp(t: DateTime): (s: string)
    ensures |s| >= 19
    ensures s[|s| - 11] == '_' && s[|s| - 4] == '_'
    ensures forall k :: 0 <= k < |s| - 15 ==> s[k] != '_'
    ensures forall k :: |s| - 15 <= k < |s| ==> (s[k] == '_' <==> k == |s| - 11 || k == |s| - 4)
  {
    YearField(t.year) + ClockFields(t)
  }

  function ParseYear(s: string): (r: Option<nat>)
  {
    if |s| == 4 && AllDigits(s) then Some(ValueOf(s))
    else if 2 <= |s| && s[0] == '+' && AllDigits(s[1..]) then Some(ValueOf(s[1..]))
    else None
  }

  predicate ClockLayout(c: string) {
    && |c| == 15
    && c[4] == '_' && c[11] == '_'
    && AllDigits(c[0..2]) && AllDigits(c[2..4]) && AllDigits(c[5..7])
    && AllDigits(c[7..9]) && AllDigits(c[9..11]) && AllDigits(c[12..15])
  }

  /** Reads the fields back out of a timestamp; the year read is the year of era. */
  function ParseTimestamp(s: string): (r: Option<DateTime>)
    ensures r.Some? ==> |s| >= 19
  {
    if |s| < 19 then None
    else
      var c := s[|s| - 15..];
      match ParseYear(s[..|s| - 15])
      case None => None
      case Some(year) =>
        if !ClockLayout(c) then None
        else Some(DateTime(year, ValueOf(c[0..2]), ValueOf(c[2..4]), ValueOf(c[5..7]),
                           ValueOf(c[7..9]), ValueOf(c[9..11]), ValueOf(c[12..15])))
  }

  lemma ClockFieldsRoundTrip(t: DateTime)
    requires InRange(t)
    ensures ClockLayout(ClockFields(t))
    ensures var c := ClockFields(t);
      && ValueOf(c[0..2]) == t.month && ValueOf(c[2..4]) == t.day
      && ValueOf(c[5..7]) == t.hour && ValueOf(c[7..9]) == t.minute
      && ValueOf(c[9..11]) == t.second && ValueOf(c[12..15]) == t.millisecond
  {
    var c := ClockFields(t);
    assert c[0..2] == Padded(t.month, 2);
    assert c[2..4] == Padded(t.day, 2);
    assert c[5..7] == Padded(t.hour, 2);
    assert c[7..9] == Padded(t.minute, 2);
    assert c[9..11] == Padded(t.second, 2);
    assert c[12..15] == Padded(t.millisecond, 3);
    assert Pow10(2) == 100 && Pow10(3) == 1000;
    PaddedRoundTrip(t.month, 2);
    PaddedRoundTrip(t.day, 2);
    PaddedRoundTrip(t.hour, 2);
    PaddedRoundTrip(t.minute, 2);
    PaddedRoundTrip(t.second, 2);
    PaddedRoundTrip(t.millisecond, 3);
  }

  lemma YearFieldRoundTrip(year: int)
    ensures ParseYear(YearField(year)) == Some(YearOfEra(year))
  {
    var yoe := YearOfEra(year);
    if yoe < 10000 {
      assert Pow10(4) == 10000;
      PaddedRoundTrip(yoe, 4);
    } else {
      assert YearField(year)[1..] == NatToString(yoe);
      NatToStringRoundTrip(yoe);
    }
  }

  /** Every field comes back out of the timestamp; the year comes back as the year of era. */
  lemma TimestampRoundTrip(t: DateTime)
    requires InRange(t)
    ensures ParseTimestamp(Timestamp(t)) == Some(t.(year := YearOfEra(t.year)))
  {
    var s := Timestamp(t);
    assert s[..|s| - 15] == YearField(t.year);
    assert s[|s| - 15..] == ClockFields(t);
    YearFieldRoundTrip(t.year);
    ClockFieldsRoundTrip(t);
  }

  /** From 1 CE on, two date-times print the same timestamp exactly when they are equal. */
  lemma TimestampInjective(t1: DateTime, t2: DateTime)
    requires InRange(t1) && InRange(t2)
    requires t1.year >= 1 && t2.year >= 1
    ensures Timestamp(t1) == Timestamp(t2) <==> t1 == t2
  {
    TimestampRoundTrip(t1);
    TimestampRoundTrip(t2);
  }

  /** The era is not printed: year 1 - y (that is, y BCE) prints like year y. */
  lemma EraNotPrinted(t: DateTime, y: int)
    requires y >= 1
    ensures Timestamp(t.(year := 1 - y)) == Timestamp(t.(year := y))
  {
  }

  /** The timestamp is 19 characters exactly when the year of era has at most four digits. */
  lemma TimestampLength(t: DateTime)
    ensures |Timestamp(t)| == 19 <==> -9998 <= t.year <= 9999
  {
    var yoe := YearOfEra(t.year);
    if yoe >= 10000 {
      NatToStringLength(yoe, 4);
    }
  }

  /** For years 0 to 9999: digits everywhere except underscores at positions 8 and 15. */
  lemma TimestampLayout(t: DateTime)
    requires 0 <= t.year <= 9999
    ensures var s := Timestamp(t);
      && |s| == 19
      && (forall k :: 0 <= k < 19 ==> (s[k] == '_' <==> k == 8 || k == 15))
      && (forall k :: 0 <= k < 19 && k != 8 && k != 15 ==> IsDigit(s[k]))
  {
    TimestampLength(t);
  }

  /** The artifact name: the directory, a slash, the test name, an underscore, the timestamp, then `.png`. */
  function FileName(testName: string, timestamp: string): (name: string)
    ensures |name| == |ScreenshotDir| + |testName| + |timestamp| + 6
    ensures name[..|ScreenshotDir| + 1] == ScreenshotDir + "/"
    ensures name[|ScreenshotDir| + 1..|ScreenshotDir| + 1 + |testName|] == testName
    ensures name[|ScreenshotDir| + 1 + |testName|] == '_'
    ensures name[|ScreenshotDir| + 2 + |testName|..|name| - 4] == timestamp
    ensures name[|name| - 4..] == ".png"
  {
    ScreenshotDir + "/" + testName + "_" + timestamp + ".png"
  }

  function ScreenshotName(testName: string, t: DateTime): string {
    FileName(testName, Timestamp(t))
  }

  /** For a fixed test name, distinct timestamps give distinct file names. */
  lemma FileNameSeparatesTimestamps(testName: string, ts1: string, ts2: string)
    requires FileName(testName, ts1) == FileName(testName, ts2)
    ensures ts1 == ts2
  {
    var n := |ScreenshotDir + "/" + testName + "_"|;
    var a, b := FileName(testName, ts1), FileName(testName, ts2);
    assert ts1 == a[n..|a| - 4];
    assert ts2 == b[n..|b| - 4];
  }

  /**
   * Recovers the test name and clock reading from an artifact name. The timestamp's
   * year part holds no underscore, so the underscore before it is the last one ahead
   * of the fixed 15-character clock part; the test name may itself hold underscores.
   */
  function ParseScreenshotName(name: string): (r: Option<(string, DateTime)>)
  {
    var prefix := ScreenshotDir + "/";
    if |name| < |prefix| + 4 + 15 || name[..|prefix|] != prefix || name[|name| - 4..] != ".png" then None
    else
      var middle := name[|prefix|..|name| - 4];
      match LastIndexOf(middle[..|middle| - 15], '_')
      case None => None
      case Some(k) =>
        match ParseTimestamp(middle[k + 1..])
        case None => None
        case Some(t) => Some((middle[..k], t))
  }

  /**
   * Parsing any file name whose timestamp part has no underscore ahead of its 15-character
   * clock part gives back the test name and whatever the timestamp parses to.
   */
  lemma ParseFileName(testName: string, ts: string)
    requires |ts| >= 19
    requires forall k :: 0 <= k < |ts| - 15 ==> ts[k] != '_'
    ensures ParseScreenshotName(FileName(testName, ts))
      == match ParseTimestamp(ts)
         case None => None
         case Some(t) => Some((testName, t))
  {
    var name := FileName(testName, ts);
    var middle := name[|ScreenshotDir| + 1..|name| - 4];
    assert middle == testName + "_" + ts;
    assert middle[..|middle| - 15] == testName + "_" + ts[..|ts| - 15];
    LastIndexOfBeforeTail(testName, '_', ts[..|ts| - 15]);
    assert middle[|testName| + 1..] == ts;
    assert middle[..|testName|] == testName;
  }

  lemma ScreenshotNameRoundTrip(testName: string, t: DateTime)
    requires InRange(t)
    ensures ParseScreenshotName(ScreenshotName(testName, t)) == Some((testName, t.(year := YearOfEra(t.year))))
  {
    ParseFileName(testName, Timestamp(t));
    TimestampRoundTrip(t);
  }

  /** From 1 CE on, two captures share a file name exactly when test name and date-time both agree. */
  lemma ScreenshotNameInjective(n1: string, t1: DateTime, n2: string, t2: DateTime)
    requires InRange(t1) && InRange(t2)
    requires t1.year >= 1 && t2.year >= 1
    ensures ScreenshotName(n1, t1) == ScreenshotName(n2, t2) <==> n1 == n2 && t1 == t2
  {
    ScreenshotNameRoundTrip(n1, t1);
    ScreenshotNameRoundTrip(n2, t2);
  }
}
