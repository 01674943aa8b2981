/** The time-of-day activity heuristic: `isBusyAtTime` and `isCalmAtTime`
    (services/utils.ts). A bucket is reduced to one representative hour, which
    is tested against the café's "HH:MM-HH:MM" busiest-hours ranges. */
module Activity {
  import opened Wrappers
  import opened Types
  import opened JsParse

  /** The TypeError raised by `end.split(':')` when a range has no '-' and so
      no end part. */
  datatype RangeError = EndUndefined(range: string)

  /** The single hour each bucket is reduced to; always an hour of the day. */
  function RepresentativeHour(t: TimeOption): Hour {
    match t
    case Morning => 9
    case Afternoon => 14
    case Evening => 19
    case LateNight => 22
  }

  /** Start and end hour of one range: the range is cut at its first '-' (the
      end part stops at a second '-', if any), each part is cut at its first
      ':', and the hour text is read with `parseInt` (None is NaN). Reading a
      range with no '-' fails, and only such a range fails. */
  function RangeHours(range: string): (r: Result<(Option<int>, Option<int>), RangeError>)
    ensures r.Failure? <==> '-' !in range
  {
    var start := TakeUntil(range, '-');
    if |start| == |range| then
      assert start == range;
      Failure(EndUndefined(range))
    else
      assert range[|start|] == '-';
      var end := TakeUntil(range[|start| + 1..], '-');
      Success((ParseInt(TakeUntil(start, ':')), ParseInt(TakeUntil(end, ':'))))
  }

  /** `checkHour >= startH && checkHour < endH`: start inclusive, end exclusive,
      and false whenever either side is NaN. */
  predicate HourWithin(hour: int, startH: Option<int>, endH: Option<int>) {
    startH.Some? && endH.Some? && startH.value <= hour < endH.value
  }

  /** Whether one range covers `hour`; fails exactly when the range has no '-'. */
  function RangeMatches(range: string, hour: int): (r: Result<bool, RangeError>)
    ensures r.Failure? <==> '-' !in range
  {
    match RangeHours(range)
    case Failure(e) => Failure(e)
    case Success((startH, endH)) => Success(HourWithin(hour, startH, endH))
  }

  /** JavaScript's `xs.some(test)` with a test that may throw: elements are
      tried in order, the first `true` ends the scan (later elements are never
      tested), and the first throw before any `true` propagates. The three
      clauses together determine the result. */
  function ArraySome<T, E>(xs: seq<T>, test: T -> Result<bool, E>): (r: Result<bool, E>)
    ensures r == Success(true) ==>
      exists i :: 0 <= i < |xs| && test(xs[i]) == Success(true) &&
        forall j :: 0 <= j < i ==> test(xs[j]) == Success(false)
    ensures r == Success(false) ==> forall i :: 0 <= i < |xs| ==> test(xs[i]) == Success(false)
    ensures r.Failure? ==>
      exists i :: 0 <= i < |xs| && test(xs[i]).Failure? &&
        forall j :: 0 <= j < i ==> test(xs[j]) == Success(false)
  {
    if |xs| == 0 then Success(false)
    else
      var first := test(xs[0]);
      if first.Failure? then Failure(first.error)
      else if first.value then Success(true)
      else
        ArraySome(xs[1..], test)
  }

  /** Conversely, the first element whose test is not `false` decides the
      result: a `true` there makes the whole scan `true`... */
  lemma {:induction false} ArraySomeFirstTrue<T, E>(xs: seq<T>, test: T -> Result<bool, E>, k: int)
    requires 0 <= k < |xs| && test(xs[k]) == Success(true)
    requires forall j :: 0 <= j < k ==> test(xs[j]) == Success(false)
    ensures ArraySome(xs, test) == Success(true)
  {
    if k > 0 {
      assert test(xs[0]) == Success(false);
      assert forall j :: 0 <= j < k - 1 ==> xs[1..][j] == xs[j + 1];
      ArraySomeFirstTrue(xs[1..], test, k - 1);
    }
  }

  /** ...and a throw there makes the whole scan throw. */
  lemma {:induction false} ArraySomeFirstThrow<T, E>(xs: seq<T>, test: T -> Result<bool, E>, k: int)
    requires 0 <= k < |xs| && test(xs[k]).Failure?
    requires forall j :: 0 <= j < k ==> test(xs[j]) == Success(false)
    ensures ArraySome(xs, test).Failure?
  {
    if k > 0 {
      assert test(xs[0]) == Success(false);
      assert forall j :: 0 <= j < k - 1 ==> xs[1..][j] == xs[j + 1];
      ArraySomeFirstThrow(xs[1..], test, k - 1);
    }
  }

  /** With one element, the scan is that element's test. */
  lemma ArraySomeSingleton<T, E>(xs: seq<T>, test: T -> Result<bool, E>)
    requires |xs| == 1
    ensures ArraySome(xs, test) == test(xs[0])
  {
    assert xs[1..] == [];
  }

  /** `isBusyAtTime(cafe, time)`: some busiest-hours range covers the bucket's
      representative hour. A café with no busiest hours is never busy, and a
      café whose ranges all contain '-' never throws. */
  function IsBusyAtTime(cafe: Cafe, time: TimeOption): (r: Result<bool, RangeError>)
    ensures |cafe.busiestHours| == 0 ==> r == Success(false)
    ensures (forall i :: 0 <= i < |cafe.busiestHours| ==> '-' in cafe.busiestHours[i]) ==> r.Success?
  {
    var hour := RepresentativeHour(time);
    ArraySome(cafe.busiestHours, range => RangeMatches(range, hour))
  }

  /** `isCalmAtTime(cafe, time)`: calm means not busy and not lively; the
      busy test's failure propagates. */
  function IsCalmAtTime(cafe: Cafe, time: TimeOption): (r: Result<bool, RangeError>)
    ensures r.Failure? <==> IsBusyAtTime(cafe, time).Failure?
    ensures r == Success(true) <==>
      IsBusyAtTime(cafe, time) == Success(false) && cafe.noiseLevel != NoiseLevel.Lively
  {
    match IsBusyAtTime(cafe, time)
    case Failure(e) => Failure(e)
    case Success(busy) =>
      if busy then Success(false)
      else if cafe.noiseLevel == NoiseLevel.Lively then Success(false)
      else Success(true)
  }

  /** The "HH:MM-HH:MM" text of a range, fields zero-padded to two digits. */
  function FormatRange(startH: int, startM: int, endH: int, endM: int): string
    requires 0 <= startH < 100 && 0 <= startM < 100 && 0 <= endH < 100 && 0 <= endM < 100
  {
    Pad2(startH) + ":" + Pad2(startM) + "-" + Pad2(endH) + ":" + Pad2(endM)
  }

  /** The text after a range's '-' up to any second '-', cut at ':', is the
      end hour text. */
  lemma EndHourText(b: string, m2: string)
    requires '-' !in b && ':' !in b
    ensures TakeUntil(TakeUntil(b + [':'] + m2, '-'), ':') == b
  {
    var rest := TakeUntil(m2, '-');
    TakeUntilAppend(b + [':'], m2, '-');
    TakeUntilConcat(b, ':', rest);
  }

  /** Only the hour text before each side's first ':' is read: the minutes,
      and anything after a second '-', never change the hours. */
  lemma MinutesIgnored(a: string, m1: string, b: string, m2: string)
    requires '-' !in a && ':' !in a && '-' !in m1
    requires '-' !in b && ':' !in b
    ensures RangeHours(a + ":" + m1 + "-" + b + ":" + m2) == Success((ParseInt(a), ParseInt(b)))
  {
    var range := a + ":" + m1 + "-" + b + ":" + m2;
    var startPart := a + [':'] + m1;
    var endPart := b + [':'] + m2;
    assert range == startPart + ['-'] + endPart;
    assert '-' !in startPart;
    TakeUntilConcat(startPart, '-', endPart);
    assert range[|startPart| + 1..] == endPart;
    EndHourText(b, m2);
    TakeUntilConcat(a, ':', m1);
  }

  /** A well-formed range reads back the hours it was written with, and covers
      exactly the hours from its start (inclusive) to its end (exclusive). */
  lemma FormattedRange(startH: int, startM: int, endH: int, endM: int, hour: int)
    requires 0 <= startH < 100 && 0 <= startM < 100 && 0 <= endH < 100 && 0 <= endM < 100
    ensures RangeHours(FormatRange(startH, startM, endH, endM)) == Success((Some(startH), Some(endH)))
    ensures RangeMatches(FormatRange(startH, startM, endH, endM), hour) == Success(startH <= hour < endH)
  {
    var a, m1, b, m2 := Pad2(startH), Pad2(startM), Pad2(endH), Pad2(endM);
    assert '-' !in a && ':' !in a && '-' !in m1 && '-' !in b && ':' !in b by {
      assert forall c :: c in a || c in m1 || c in b ==> IsDecimalDigit(c);
    }
    MinutesIgnored(a, m1, b, m2);
    ParseIntPad2(startH);
    ParseIntPad2(endH);
  }

  /** A range that ends at or before its start (an overnight range such as
      "22:00-02:00") covers no hour at all. */
  lemma OvernightRangeNeverMatches(startH: int, startM: int, endH: int, endM: int, hour: int)
    requires 0 <= startH < 100 && 0 <= startM < 100 && 0 <= endH < 100 && 0 <= endM < 100
    requires endH <= startH
    ensures RangeMatches(FormatRange(startH, startM, endH, endM), hour) == Success(false)
  {
    FormattedRange(startH, startM, endH, endM, hour);
  }

  /** A range written as "HH:MM-HH:MM" reads back its two hours and, for
      every hour at once, covers exactly those from the start hour up to but
      not including the end hour. */
  lemma RangeText(range: string, startH: int, startM: int, endH: int, endM: int)
    requires 0 <= startH < 100 && 0 <= startM < 100 && 0 <= endH < 100 && 0 <= endM < 100
    requires range == FormatRange(startH, startM, endH, endM)
    ensures RangeHours(range) == Success((Some(startH), Some(endH)))
    ensures forall hour :: RangeMatches(range, hour) == Success(startH <= hour < endH)
  {
    FormattedRange(startH, startM, endH, endM, 0);
    forall hour ensures RangeMatches(range, hour) == Success(startH <= hour < endH) {
      FormattedRange(startH, startM, endH, endM, hour);
    }
  }

  /** A range whose start or end hour text reads as NaN never matches,
      whatever the hour: NaN compares false with every number. */
  lemma NaNHourNeverMatches(a: string, m1: string, b: string, m2: string, hour: int)
    requires '-' !in a && ':' !in a && '-' !in m1
    requires '-' !in b && ':' !in b
    requires ParseInt(a).None? || ParseInt(b).None?
    ensures RangeMatches(a + ":" + m1 + "-" + b + ":" + m2, hour) == Success(false)
  {
    MinutesIgnored(a, m1, b, m2);
  }

  /** In particular, hour text without any decimal digit never matches. */
  lemma DigitlessHourNeverMatches(a: string, m1: string, b: string, m2: string, hour: int)
    requires '-' !in a && ':' !in a && '-' !in m1
    requires '-' !in b && ':' !in b
    requires (forall i :: 0 <= i < |a| ==> !IsDecimalDigit(a[i])) ||
             (forall i :: 0 <= i < |b| ==> !IsDecimalDigit(b[i]))
    ensures RangeMatches(a + ":" + m1 + "-" + b + ":" + m2, hour) == Success(false)
  {
    if forall i :: 0 <= i < |a| ==> !IsDecimalDigit(a[i]) {
      ParseIntNeedsDecimalDigit(a);
    } else {
      ParseIntNeedsDecimalDigit(b);
    }
    NaNHourNeverMatches(a, m1, b, m2, hour);
  }

  /** When every range is well formed, the café is busy exactly when some
      range covers the bucket's representative hour. */
  lemma BusyIffSomeRangeCovers(cafe: Cafe, time: TimeOption)
    requires forall i :: 0 <= i < |cafe.busiestHours| ==> '-' in cafe.busiestHours[i]
    ensures IsBusyAtTime(cafe, time) ==
      Success(exists i :: 0 <= i < |cafe.busiestHours| &&
                RangeMatches(cafe.busiestHours[i], RepresentativeHour(time)) == Success(true))
  {
    var hour := RepresentativeHour(time);
    var test := range => RangeMatches(range, hour);
    var xs := cafe.busiestHours;
    var r := ArraySome(xs, test);
    assert r == IsBusyAtTime(cafe, time);
    assert r.Success?;
    if r == Success(true) {
      var i :| 0 <= i < |xs| && test(xs[i]) == Success(true) &&
        forall j :: 0 <= j < i ==> test(xs[j]) == Success(false);
      assert RangeMatches(xs[i], hour) == Success(true);
    } else {
      assert !r.value;
      assert r == Success(false);
      forall i | 0 <= i < |xs| ensures RangeMatches(xs[i], hour) != Success(true) {
        assert test(xs[i]) == Success(false);
      }
    }
  }

  /** A café with one range. */
  lemma SingleRangeBusy(cafe: Cafe, time: TimeOption)
    requires |cafe.busiestHours| == 1
    ensures IsBusyAtTime(cafe, time) == RangeMatches(cafe.busiestHours[0], RepresentativeHour(time))
  {
    var hour := RepresentativeHour(time);
    ArraySomeSingleton(cafe.busiestHours, range => RangeMatches(range, hour));
  }

  /** The start hour is inclusive and the end hour exclusive: a café busy from
      the evening hour to the late-night hour ("19:00-22:00") is busy in the
      Evening bucket but not in the Late Night one. */
  lemma BusyBoundaries(cafe: Cafe, startM: int, endM: int)
    requires 0 <= startM < 100 && 0 <= endM < 100
    requires cafe.busiestHours ==
      [FormatRange(RepresentativeHour(Evening), startM, RepresentativeHour(LateNight), endM)]
    ensures IsBusyAtTime(cafe, Evening) == Success(true)
    ensures IsBusyAtTime(cafe, LateNight) == Success(false)
  {
    RangeText(cafe.busiestHours[0], 19, startM, 22, endM);
    SingleRangeBusy(cafe, Evening);
    SingleRangeBusy(cafe, LateNight);
  }

  /** A first range without '-' makes the busy test throw at every time of day. */
  lemma MissingDashThrows(cafe: Cafe, time: TimeOption)
    requires |cafe.busiestHours| > 0 && '-' !in cafe.busiestHours[0]
    ensures IsBusyAtTime(cafe, time).Failure?
  {
    var hour := RepresentativeHour(time);
    assert RangeMatches(cafe.busiestHours[0], hour).Failure?;
    ArraySomeFirstThrow(cafe.busiestHours, range => RangeMatches(range, hour), 0);
  }

  /** A first range that covers the bucket's hour makes the café busy,
      whatever follows it. */
  lemma FirstRangeMatchDecides(cafe: Cafe, time: TimeOption)
    requires |cafe.busiestHours| > 0
    requires RangeMatches(cafe.busiestHours[0], RepresentativeHour(time)) == Success(true)
    ensures IsBusyAtTime(cafe, time) == Success(true)
  {
    var hour := RepresentativeHour(time);
    ArraySomeFirstTrue(cafe.busiestHours, range => RangeMatches(range, hour), 0);
  }

  /** A second range without '-' after a first range that does not cover the
      hour makes the busy test throw. */
  lemma SecondRangeThrows(cafe: Cafe, time: TimeOption)
    requires |cafe.busiestHours| > 1 && '-' !in cafe.busiestHours[1]
    requires RangeMatches(cafe.busiestHours[0], RepresentativeHour(time)) == Success(false)
    ensures IsBusyAtTime(cafe, time).Failure?
  {
    var hour := RepresentativeHour(time);
    assert RangeMatches(cafe.busiestHours[1], hour).Failure?;
    ArraySomeFirstThrow(cafe.busiestHours, range => RangeMatches(range, hour), 1);
  }

  /** The scan stops at the first match, so a malformed range after a range
      covering the hour is never read; when the first range does not cover the
      hour, the malformed one is read and throws. */
  lemma MatchHidesMalformedRange(cafe: Cafe, startH: int, startM: int, endH: int, endM: int,
                                 bad: string, hit: TimeOption, miss: TimeOption)
    requires 0 <= startH < 100 && 0 <= startM < 100 && 0 <= endH < 100 && 0 <= endM < 100
    requires '-' !in bad
    requires cafe.busiestHours == [FormatRange(startH, startM, endH, endM), bad]
    requires startH <= RepresentativeHour(hit) < endH
    requires !(startH <= RepresentativeHour(miss) < endH)
    ensures IsBusyAtTime(cafe, hit) == Success(true)
    ensures IsBusyAtTime(cafe, miss).Failure?
  {
    FormattedRange(startH, startM, endH, endM, RepresentativeHour(hit));
    FirstRangeMatchDecides(cafe, hit);
    FormattedRange(startH, startM, endH, endM, RepresentativeHour(miss));
    SecondRangeThrows(cafe, miss);
  }

  /** For instance, "19:00-22:00" followed by a malformed range: busy in the
      evening, a thrown error in the morning. */
  lemma EarlierMatchHidesMalformedRange(cafe: Cafe, startM: int, endM: int, bad: string)
    requires 0 <= startM < 100 && 0 <= endM < 100 && '-' !in bad
    requires cafe.busiestHours ==
      [FormatRange(RepresentativeHour(Evening), startM, RepresentativeHour(LateNight), endM), bad]
    ensures IsBusyAtTime(cafe, Evening) == Success(true)
    ensures IsBusyAtTime(cafe, Morning).Failure?
  {
    MatchHidesMalformedRange(cafe, 19, startM, 22, endM, bad, Evening, Morning);
  }

  /** The representative hour of each bucket. */
  lemma RepresentativeHourTable()
    ensures RepresentativeHour(Morning) == 9 && RepresentativeHour(Afternoon) == 14
    ensures RepresentativeHour(Evening) == 19 && RepresentativeHour(LateNight) == 22
  {
  }

  /** The text of the range used above. */
  lemma EveningRangeText()
    ensures FormatRange(RepresentativeHour(Evening), 0, RepresentativeHour(LateNight), 0) == "19:00-22:00"
  {
  }

  /** The card's three labels (busy, else calm, else moderate) never overlap,
      and "moderate" is exactly a café that is not busy but lively. */
  lemma ActivityIsThreeWay(cafe: Cafe, time: TimeOption)
    requires IsBusyAtTime(cafe, time).Success?
    ensures IsCalmAtTime(cafe, time).Success?
    ensures !(IsBusyAtTime(cafe, time).value && IsCalmAtTime(cafe, time).value)
    ensures !IsBusyAtTime(cafe, time).value && !IsCalmAtTime(cafe, time).value
      <==> !IsBusyAtTime(cafe, time).value && cafe.noiseLevel == NoiseLevel.Lively
  {
  }

  /** Two tests that agree wherever the first one does not throw give the
      same scan, as long as the first scan does not throw. */
  lemma {:induction false} ArraySomeAgree<T, E>(xs: seq<T>, t1: T -> Result<bool, E>, t2: T -> Result<bool, E>)
    requires ArraySome(xs, t1).Success?
    requires forall i :: 0 <= i < |xs| && t1(xs[i]).Success? ==> t2(xs[i]) == t1(xs[i])
    ensures ArraySome(xs, t2) == ArraySome(xs, t1)
  {
    if |xs| > 0 && t1(xs[0]) == Success(false) {
      assert forall i :: 0 <= i < |xs| - 1 ==> xs[1..][i] == xs[i + 1];
      ArraySomeAgree(xs[1..], t1, t2);
    }
  }

  /** The range test with a range without '-' counted as not covering the
      hour instead of throwing. */
  function RangeMatchesOrSkip(range: string, hour: int): bool {
    match RangeMatches(range, hour)
    case Success(b) => b
    case Failure(_) => false
  }

  /** The busy test as intended: it never throws, and a malformed range is
      skipped rather than aborting the scan. */
  function IsBusyAtTimeSkipping(cafe: Cafe, time: TimeOption): (busy: bool)
    ensures busy <==> (exists i :: 0 <= i < |cafe.busiestHours| &&
                         RangeMatchesOrSkip(cafe.busiestHours[i], RepresentativeHour(time)))
  {
    var hour := RepresentativeHour(time);
    var test: string -> Result<bool, RangeError> := range => Success(RangeMatchesOrSkip(range, hour));
    match ArraySome(cafe.busiestHours, test)
    case Success(b) => b
    case Failure(_) => false
  }

  /** Wherever the code as written answers, the corrected test gives the same
      answer. */
  lemma SkippingAgreesWhenNoThrow(cafe: Cafe, time: TimeOption)
    requires IsBusyAtTime(cafe, time).Success?
    ensures IsBusyAtTimeSkipping(cafe, time) == IsBusyAtTime(cafe, time).value
  {
    var hour := RepresentativeHour(time);
    var t1 := range => RangeMatches(range, hour);
    var t2: string -> Result<bool, RangeError> := range => Success(RangeMatchesOrSkip(range, hour));
    ArraySomeAgree(cafe.busiestHours, t1, t2);
  }

  /** A range without '-' neither throws nor matches in the corrected test: the
      café is busy exactly when one of its other ranges covers the hour. */
  lemma MalformedRangeSkipped(cafe: Cafe, time: TimeOption, k: int)
    requires 0 <= k < |cafe.busiestHours| && '-' !in cafe.busiestHours[k]
    ensures IsBusyAtTimeSkipping(cafe, time) <==>
      exists i :: 0 <= i < |cafe.busiestHours| && i != k &&
        RangeMatchesOrSkip(cafe.busiestHours[i], RepresentativeHour(time))
  {
    assert !RangeMatchesOrSkip(cafe.busiestHours[k], RepresentativeHour(time));
  }

  /** The calm test built on the corrected busy test. */
  function IsCalmAtTimeSkipping(cafe: Cafe, time: TimeOption): (calm: bool)
    ensures calm <==> (cafe.noiseLevel != NoiseLevel.Lively &&
                       forall i :: 0 <= i < |cafe.busiestHours| ==>
                         !RangeMatchesOrSkip(cafe.busiestHours[i], RepresentativeHour(time)))
  {
    !IsBusyAtTimeSkipping(cafe, time) && cafe.noiseLevel != NoiseLevel.Lively
  }

  /** Wherever the calm test as written answers, the corrected one agrees. */
  lemma CalmSkippingAgreesWhenNoThrow(cafe: Cafe, time: TimeOption)
    requires IsCalmAtTime(cafe, time).Success?
    ensures IsCalmAtTimeSkipping(cafe, time) == IsCalmAtTime(cafe, time).value
  {
    SkippingAgreesWhenNoThrow(cafe, time);
  }
}
