/**
 * The end-of-drop time shown in a notification: `endAt` cut at the first
 * '.', every 'Z' replaced by "+00:00", parsed by `datetime.fromisoformat`
 * and turned into whole Unix seconds by `int(dt.timestamp())`.
 *
 * Only the extended form `YYYY-MM-DDTHH:MM:SS` with an optional `+HH:MM` or
 * `-HH:MM` offset is accepted; `None` stands for the `ValueError` Python
 * raises. A parsed time without an offset is naive, and Python reads a naive
 * time in the host's local zone: `hostOffset` is that zone's distance from
 * UTC in seconds (east positive), taken as fixed.
 */
module EndTime {
  import opened Wrappers
  import opened Text
  import opened Calendar

  datatype DateTime = DateTime(year: int, month: int, day: int, hour: int, minute: int, second: int)

  /** A parsed time either has no offset (naive) or a fixed one, in seconds east of UTC. */
  datatype Zone = Naive | Fixed(offsetSeconds: int)

  predicate IsDigit(c: char) {
    '0' <= c <= '9'
  }

  predicate AllDigits(s: string) {
    forall i :: 0 <= i < |s| ==> IsDigit(s[i])
  }

  function Pow10(n: nat): (r: nat)
    ensures r >= 1
  {
    if n == 0 then 1 else 10 * Pow10(n - 1)
  }

  /** The value of a run of decimal digits, as `int()` reads it; below `10^|s|`. */
  function Decimal(s: string): (r: nat)
    requires AllDigits(s)
    ensures r < Pow10(|s|)
  {
    if s == [] then 0 else 10 * Decimal(s[..|s| - 1]) + (s[|s| - 1] as int - '0' as int)
  }

  predicate ValidDateTime(t: DateTime) {
    ValidDate(t.year, t.month, t.day)
    && 0 <= t.hour <= 23 && 0 <= t.minute <= 59 && 0 <= t.second <= 59
  }

  /** `YYYY-MM-DDTHH:MM:SS`, every field in range. */
  function ParseCivil(s: string): (r: Option<DateTime>)
    requires |s| == 19
    ensures r.Some? ==> ValidDateTime(r.value)
  {
    if s[4] != '-' || s[7] != '-' || s[10] != 'T' || s[13] != ':' || s[16] != ':' then None
    else if !(AllDigits(s[0..4]) && AllDigits(s[5..7]) && AllDigits(s[8..10])
              && AllDigits(s[11..13]) && AllDigits(s[14..16]) && AllDigits(s[17..19])) then None
    else
      var t := DateTime(Decimal(s[0..4]), Decimal(s[5..7]), Decimal(s[8..10]),
                        Decimal(s[11..13]), Decimal(s[14..16]), Decimal(s[17..19]));
      if ValidDateTime(t) then Some(t) else None
  }

  /** Empty (naive) or `+HH:MM` / `-HH:MM` with HH <= 23 and MM <= 59. */
  function ParseZone(s: string): (r: Option<Zone>)
    ensures s == [] <==> r == Some(Naive)
    ensures r.Some? && r.value.Fixed? ==> -86400 < r.value.offsetSeconds < 86400
  {
    if s == [] then Some(Naive)
    else if |s| != 6 || (s[0] != '+' && s[0] != '-') || s[3] != ':' then None
    else if !(AllDigits(s[1..3]) && AllDigits(s[4..6])) then None
    else
      var hh, mm := Decimal(s[1..3]), Decimal(s[4..6]);
      if hh <= 23 && mm <= 59 then
        var mag: int := hh * 3600 + mm * 60;
        Some(Fixed(if s[0] == '+' then mag else -mag))
      else None
  }

  /** `datetime.fromisoformat(s)` on the accepted form. */
  function FromIsoFormat(s: string): (r: Option<(DateTime, Zone)>)
    ensures r.Some? ==> ValidDateTime(r.value.0)
    ensures r.Some? ==> (r.value.1 == Naive <==> |s| == 19)
  {
    if |s| < 19 then None
    else match (ParseCivil(s[..19]), ParseZone(s[19..]))
      case (Some(t), Some(z)) => Some((t, z))
      case _ => None
  }

  /** Seconds since the start of the day. */
  function SecondOfDay(t: DateTime): (r: int)
    requires ValidDateTime(t)
    ensures 0 <= r < 86400
  {
    t.hour * 3600 + t.minute * 60 + t.second
  }

  /**
   * `int(dt.timestamp())`: for an aware time its UTC instant, for a naive
   * one the instant at which the host's clock shows it.
   */
  function Timestamp(t: DateTime, z: Zone, hostOffset: int): int
    requires ValidDateTime(t)
  {
    var offset := match z
      case Naive => hostOffset
      case Fixed(o) => o;
    (Ordinal(t.year, t.month, t.day) - EpochOrdinal) * 86400 + SecondOfDay(t) - offset
  }

  /** `drop['endAt'].split('.')[0].replace("Z", "+00:00")`. */
  function NormalizeEndAt(endAt: string): (r: string)
    ensures '.' !in r
  {
    ReplaceAll(BeforeFirst(endAt, '.'), 'Z', "+00:00")
  }

  /** The conversion of app.py lines 160-162 as written, on a host `hostOffset` seconds east of UTC. */
  function EndAtOnHost(endAt: string, hostOffset: int): Option<int> {
    match FromIsoFormat(NormalizeEndAt(endAt))
    case None => None
    case Some((t, z)) => Some(Timestamp(t, z, hostOffset))
  }

  /** The conversion as intended: the end time read as UTC whether or not its 'Z' survived the cut. */
  function EndAtUtc(endAt: string): Option<int> {
    EndAtOnHost(endAt, 0)
  }

  /** Normalisation of a time with a fraction keeps exactly the part before the '.'. */
  lemma NormalizeFraction(base: string, frac: string)
    requires '.' !in base && 'Z' !in base
    ensures NormalizeEndAt(base + "." + frac) == base
  {
    BeforeFirstCut(base, '.', frac);
  }

  /** Normalisation of a whole-second `...Z` time turns the 'Z' into an explicit UTC offset. */
  lemma NormalizeZulu(base: string)
    requires '.' !in base && 'Z' !in base
    ensures NormalizeEndAt(base + "Z") == base + "+00:00"
  {
    assert '.' !in base + "Z";
    ReplaceAllAppend(base, "Z", 'Z', "+00:00");
  }

  /** "+00:00" is the zero offset. */
  lemma ZoneUtc()
    ensures ParseZone("+00:00") == Some(Fixed(0))
  {
    assert "+00:00"[1..3] == "00" && "+00:00"[4..6] == "00";
    assert "00"[..1] == "0" && "0"[..0] == "";
  }

  /** A bare civil time parses as naive, the same civil time with "+00:00" as UTC. */
  lemma ParseBothForms(base: string)
    requires |base| == 19
    ensures FromIsoFormat(base).Some? <==> ParseCivil(base).Some?
    ensures FromIsoFormat(base + "+00:00").Some? <==> ParseCivil(base).Some?
    ensures ParseCivil(base).Some? ==> FromIsoFormat(base) == Some((ParseCivil(base).value, Naive))
    ensures ParseCivil(base).Some? ==> FromIsoFormat(base + "+00:00") == Some((ParseCivil(base).value, Fixed(0)))
  {
    ZoneUtc();
    var z := base + "+00:00";
    assert z[..19] == base && z[19..] == "+00:00";
    assert base[..19] == base && base[19..] == [];
  }

  /**
   * The two spellings of one second, with and without a fraction: on a host
   * at `hostOffset` the fractional one is read as local time, so the results
   * differ by exactly `hostOffset` seconds.
   */
  lemma HostZoneShiftsFraction(base: string, frac: string, hostOffset: int)
    requires |base| == 19 && '.' !in base && 'Z' !in base
    ensures EndAtOnHost(base + "Z", hostOffset).Some? <==> EndAtOnHost(base + "." + frac, hostOffset).Some?
    ensures EndAtOnHost(base + "Z", hostOffset).Some? ==>
      EndAtOnHost(base + "." + frac, hostOffset).value == EndAtOnHost(base + "Z", hostOffset).value - hostOffset
  {
    NormalizeFraction(base, frac);
    NormalizeZulu(base);
    ParseBothForms(base);
  }

  /** With its 'Z' intact, an end time names one instant whatever the host's zone. */
  lemma ZuluIgnoresHost(base: string, hostOffset: int)
    requires |base| == 19 && '.' !in base && 'Z' !in base
    ensures EndAtOnHost(base + "Z", hostOffset) == EndAtUtc(base + "Z")
  {
    NormalizeZulu(base);
    ParseBothForms(base);
    var parsed := FromIsoFormat(base + "+00:00");
    if parsed.Some? {
      var t := parsed.value.0;
      assert parsed.value.1 == Fixed(0);
      assert Timestamp(t, Fixed(0), hostOffset) == Timestamp(t, Fixed(0), 0);
    }
  }

  /**
   * Read as UTC, a sub-second fraction is cut, not rounded:
   * `...T23:29:59.998Z` and `...T23:29:59Z` give the same second.
   */
  lemma FractionTruncated(base: string, frac: string)
    requires |base| == 19 && '.' !in base && 'Z' !in base
    ensures EndAtUtc(base + "." + frac) == EndAtUtc(base + "Z")
  {
    HostZoneShiftsFraction(base, frac, 0);
    var cut, zulu := EndAtOnHost(base + "." + frac, 0), EndAtOnHost(base + "Z", 0);
    assert cut.Some? <==> zulu.Some?;
    if cut.Some? {
      assert cut.value == zulu.value;
    }
  }

  /** The two-digit field of `s` at `k` spells `v`. */
  lemma TwoDigitField(s: string, k: nat, v: nat)
    requires k + 2 <= |s| && v < 100
    requires s[k] as int == '0' as int + v / 10 && s[k + 1] as int == '0' as int + v % 10
    ensures AllDigits(s[k..k + 2]) && Decimal(s[k..k + 2]) == v
  {
    var f := s[k..k + 2];
    assert f[..1][..0] == [];
  }

  /** The four-digit field of `s` at `k` spells `v`. */
  lemma FourDigitField(s: string, k: nat, v: nat)
    requires k + 4 <= |s| && v < 10000
    requires s[k] as int == '0' as int + v / 1000 && s[k + 1] as int == '0' as int + v / 100 % 10
    requires s[k + 2] as int == '0' as int + v / 10 % 10 && s[k + 3] as int == '0' as int + v % 10
    ensures AllDigits(s[k..k + 4]) && Decimal(s[k..k + 4]) == v
  {
    var f := s[k..k + 4];
    TwoDigitField(s, k, v / 100);
    assert f[..3][..2] == s[k..k + 2];
  }

  /** `ParseCivil` accepts a string whose separators, digits and field values are right. */
  lemma CivilFields(s: string, t: DateTime)
    requires |s| == 19 && s[4] == '-' && s[7] == '-' && s[10] == 'T' && s[13] == ':' && s[16] == ':'
    requires AllDigits(s[0..4]) && AllDigits(s[5..7]) && AllDigits(s[8..10])
    requires AllDigits(s[11..13]) && AllDigits(s[14..16]) && AllDigits(s[17..19])
    requires Decimal(s[0..4]) == t.year && Decimal(s[5..7]) == t.month && Decimal(s[8..10]) == t.day
    requires Decimal(s[11..13]) == t.hour && Decimal(s[14..16]) == t.minute && Decimal(s[17..19]) == t.second
    requires ValidDateTime(t)
    ensures ParseCivil(s) == Some(t)
  {
  }

  /** The six fields of the example end time of app.py line 159. */
  lemma ExampleFields(s: string)
    requires |s| == 19 && s[0] == '2' && s[1] == '0' && s[2] == '2' && s[3] == '5'
    requires s[5] == '1' && s[6] == '1' && s[8] == '3' && s[9] == '0'
    requires s[11] == '2' && s[12] == '3' && s[14] == '2' && s[15] == '9' && s[17] == '5' && s[18] == '9'
    ensures AllDigits(s[0..4]) && AllDigits(s[5..7]) && AllDigits(s[8..10])
    ensures AllDigits(s[11..13]) && AllDigits(s[14..16]) && AllDigits(s[17..19])
    ensures Decimal(s[0..4]) == 2025 && Decimal(s[5..7]) == 11 && Decimal(s[8..10]) == 30
    ensures Decimal(s[11..13]) == 23 && Decimal(s[14..16]) == 29 && Decimal(s[17..19]) == 59
  {
    FourDigitField(s, 0, 2025);
    TwoDigitField(s, 5, 11);
    TwoDigitField(s, 8, 30);
    TwoDigitField(s, 11, 23);
    TwoDigitField(s, 14, 29);
    TwoDigitField(s, 17, 59);
  }

  /** The civil part of the example end time of app.py line 159. */
  lemma ExampleCivil(s: string)
    requires s == "2025-11-30T23:29:59"
    ensures ParseCivil(s) == Some(DateTime(2025, 11, 30, 23, 29, 59))
  {
    ExampleFields(s);
    CivilFields(s, DateTime(2025, 11, 30, 23, 29, 59));
  }

  /** The day number of the example end date. */
  lemma ExampleDay()
    ensures ValidDate(2025, 11, 30) && Ordinal(2025, 11, 30) == 739585
  {
    assert !IsLeap(2025);
  }

  /** The example end time of app.py line 159, read as UTC, with and without its fraction. */
  lemma ExampleEndAt()
    ensures EndAtUtc("2025-11-30T23:29:59.998Z") == Some(1764545399)
    ensures EndAtUtc("2025-11-30T23:29:59Z") == Some(1764545399)
  {
    var base := "2025-11-30T23:29:59";
    assert "2025-11-30T23:29:59.998Z" == base + "." + "998Z";
    assert "2025-11-30T23:29:59Z" == base + "Z";
    FractionTruncated(base, "998Z");
    NormalizeZulu(base);
    ParseBothForms(base);
    ExampleCivil(base);
    var t := DateTime(2025, 11, 30, 23, 29, 59);
    assert FromIsoFormat(NormalizeEndAt(base + "Z")) == Some((t, Fixed(0)));
    ExampleDay();
    assert Timestamp(t, Fixed(0), 0) == 1764545399;
    assert EndAtUtc(base + "Z") == Some(1764545399);
  }

  /**
   * The example end time of app.py line 159 on a host one hour east of UTC
   * (Central Europe in winter): once its fraction is cut it is read as the
   * host's local time, so it comes out an hour before the instant it names.
   */
  lemma ExampleHostShift()
    ensures EndAtOnHost("2025-11-30T23:29:59.998Z", 3600) == Some(1764545399 - 3600)
  {
    var base := "2025-11-30T23:29:59";
    assert "2025-11-30T23:29:59.998Z" == base + "." + "998Z";
    NormalizeFraction(base, "998Z");
    ParseBothForms(base);
    ExampleCivil(base);
    var t := DateTime(2025, 11, 30, 23, 29, 59);
    assert FromIsoFormat(NormalizeEndAt(base + "." + "998Z")) == Some((t, Naive));
    ExampleDay();
    assert Timestamp(t, Naive, 3600) == 1764545399 - 3600;
  }
}
