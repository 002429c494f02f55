/** Decoding of a WCA `best` value into display text (filter.py,
    format_time, format_mbf_result and format_best_result). A `best` is a
    non-negative integer whose meaning depends on the event: centiseconds for
    timed events, a move count for 3x3 Fewest Moves, and a packed
    points/time/missed value for 3x3 Multi-Blind. */
module ResultFormat {
  import opened Wrappers
  import opened Decimal

  /* ---------------- Timed events: centiseconds ---------------- */

  /** A centisecond count split into minutes, seconds and hundredths. */
  datatype Clock = Clock(minutes: nat, seconds: nat, hundredths: nat)

  /** The two `divmod`s of format_time: by 6000, then the remainder by 100. */
  function TimeParts(centiseconds: nat): (t: Clock)
    ensures t.minutes * 6000 + t.seconds * 100 + t.hundredths == centiseconds
    ensures t.seconds < 60 && t.hundredths < 100
  {
    var rest := centiseconds % 6000;
    Clock(centiseconds / 6000, rest / 100, rest % 100)
  }

  /** Any decomposition with seconds below 60 and hundredths below 100 is
      the one TimeParts finds. */
  lemma TimePartsUnique(centiseconds: nat, minutes: nat, seconds: nat, hundredths: nat)
    requires seconds < 60 && hundredths < 100
    requires minutes * 6000 + seconds * 100 + hundredths == centiseconds
    ensures TimeParts(centiseconds) == Clock(minutes, seconds, hundredths)
  {
    DivModUnique(centiseconds, 6000, minutes, seconds * 100 + hundredths);
    DivModUnique(seconds * 100 + hundredths, 100, seconds, hundredths);
  }

  /** The text format_time prints for a split time: `m:ss.ff` when there is
      at least one whole minute, `s.ff` otherwise. */
  function TimeText(t: Clock): string {
    if t.minutes > 0 then
      NatToString(t.minutes) + ":" + PadTo(t.seconds, 2) + "." + PadTo(t.hundredths, 2)
    else
      NatToString(t.seconds) + "." + PadTo(t.hundredths, 2)
  }

  /** format_time. The text loses nothing: it reads back to the
      centiseconds, so no two times print alike, and it is the only text
      that reads back to them; the minutes field (with its colon) is shown
      exactly from one minute on. */
  function FormatTime(centiseconds: nat): (text: string)
    ensures ParseTime(text) == Some(centiseconds)
    ensures forall other :: ParseTime(other) == Some(centiseconds) ==> other == text
    ensures ':' in text <==> centiseconds >= 6000
  {
    var t := TimeParts(centiseconds);
    TimeTextRoundTrip(t);
    TimeTextShowsMinutes(t);
    assert forall other :: ParseTime(other) == Some(centiseconds) ==> other == TimeText(t) by {
      forall other | ParseTime(other) == Some(centiseconds)
        ensures other == TimeText(t)
      {
        ParseTimeExact(other, centiseconds);
      }
    }
    TimeText(t)
  }

  /** Reads a displayed time back into centiseconds. It accepts exactly the
      two shapes format_time prints: `m:ss.ff` with m a canonical numeral
      above 0 and ss below 60, and `s.ff` with s a canonical numeral below
      60. */
  function ParseTime(text: string): Option<nat> {
    match SplitOnce(text, '.')
    case None => None
    case Some((clock, hundredths)) =>
      if |hundredths| != 2 || !AllDigits(hundredths) then None
      else match SplitOnce(clock, ':')
        case None =>
          if Canonical(clock) && ParseDigits(clock) < 60
          then Some(ParseDigits(clock) * 100 + ParseDigits(hundredths))
          else None
        case Some((minutes, seconds)) =>
          if Canonical(minutes) && ParseDigits(minutes) > 0
             && |seconds| == 2 && AllDigits(seconds) && ParseDigits(seconds) < 60
          then Some(ParseDigits(minutes) * 6000 + ParseDigits(seconds) * 100 + ParseDigits(hundredths))
          else None
  }

  /** `m:ss.ff` reads back to its centiseconds. */
  lemma ParseTimeWithMinutes(minutes: nat, seconds: nat, hundredths: nat)
    requires minutes > 0 && seconds < 60 && hundredths < 100
    ensures ParseTime(NatToString(minutes) + ":" + PadTo(seconds, 2) + "." + PadTo(hundredths, 2))
         == Some(minutes * 6000 + seconds * 100 + hundredths)
  {
    var m, s, h := NatToString(minutes), PadTo(seconds, 2), PadTo(hundredths, 2);
    assert Pow10(2) == 100;
    ParseNatToString(minutes);
    NoSeparatorIn(m, '.');
    NoSeparatorIn(m, ':');
    NoSeparatorIn(s, '.');
    var clock := m + [':'] + s;
    assert m + ":" + s + "." + h == clock + ['.'] + h;
    SplitOnceJoin(clock, '.', h);
    SplitOnceJoin(m, ':', s);
  }

  /** `s.ff` reads back to its centiseconds. */
  lemma ParseTimeSecondsOnly(seconds: nat, hundredths: nat)
    requires seconds < 60 && hundredths < 100
    ensures ParseTime(NatToString(seconds) + "." + PadTo(hundredths, 2)) == Some(seconds * 100 + hundredths)
  {
    var s, h := NatToString(seconds), PadTo(hundredths, 2);
    assert Pow10(2) == 100;
    ParseNatToString(seconds);
    NoSeparatorIn(s, '.');
    NoSeparatorIn(s, ':');
    assert s + "." + h == s + ['.'] + h;
    SplitOnceJoin(s, '.', h);
  }

  /** A printed split time reads back to its centiseconds. */
  lemma TimeTextRoundTrip(t: Clock)
    requires t.seconds < 60 && t.hundredths < 100
    ensures ParseTime(TimeText(t)) == Some(t.minutes * 6000 + t.seconds * 100 + t.hundredths)
  {
    if t.minutes > 0 {
      ParseTimeWithMinutes(t.minutes, t.seconds, t.hundredths);
      assert TimeText(t) == NatToString(t.minutes) + ":" + PadTo(t.seconds, 2) + "." + PadTo(t.hundredths, 2);
    } else {
      ParseTimeSecondsOnly(t.seconds, t.hundredths);
      assert TimeText(t) == NatToString(t.seconds) + "." + PadTo(t.hundredths, 2);
    }
  }

  /** A split time shows a colon exactly when it has whole minutes. */
  lemma TimeTextShowsMinutes(t: Clock)
    ensures ':' in TimeText(t) <==> t.minutes > 0
  {
    NoSeparatorIn(PadTo(t.hundredths, 2), ':');
    if t.minutes > 0 {
      assert TimeText(t)[|NatToString(t.minutes)|] == ':';
    } else {
      NoSeparatorIn(NatToString(t.seconds), ':');
    }
  }

  /** ParseTime accepts only the text format_time prints for its value. */
  lemma ParseTimeExact(text: string, centiseconds: nat)
    requires ParseTime(text) == Some(centiseconds)
    ensures text == TimeText(TimeParts(centiseconds))
  {
    SplitOnceParts(text, '.');
    var (clock, hh) := SplitOnce(text, '.').value;
    var h := ParseDigits(hh);
    assert Pow10(2) == 100;
    PaddedRoundTrip(hh, 2);
    match SplitOnce(clock, ':')
    case None =>
      CanonicalRoundTrip(clock);
      TimePartsUnique(centiseconds, 0, ParseDigits(clock), h);
    case Some((m, ss)) =>
      SplitOnceParts(clock, ':');
      CanonicalRoundTrip(m);
      PaddedRoundTrip(ss, 2);
      TimePartsUnique(centiseconds, ParseDigits(m), ParseDigits(ss), h);
      assert text == m + ":" + ss + "." + hh;
  }

  /* ---------------- 3x3 Multi-Blind: packed digits ---------------- */

  /** The three numbers packed into a multi-blind value: the points digits,
      the time in seconds and the missed-cube count. */
  datatype MbfFields = MbfFields(points: nat, seconds: nat, missed: nat)

  /** The width the packed value is read at: its own digit count, but never
      fewer than eight digits. */
  function MbfWidth(best: nat): (w: nat)
    ensures w >= 8 && w >= Width(best)
  {
    if Width(best) < 8 then 8 else Width(best)
  }

  /** The fields as format_mbf_result reads them: zero-pad to eight digits,
      then `int()` of the first two characters, of everything between, and
      of the last two. */
  function MbfUnpack(best: nat): (f: MbfFields)
    ensures f.points < 100 && f.missed < 100
  {
    var s := PadTo(best, 8);
    MbfFields(ParseDigits(s[..2]), ParseDigits(s[2..|s| - 2]), ParseDigits(s[|s| - 2..]))
  }

  /** The same fields by arithmetic: leading two digits, middle digits and
      last two digits of the value read at MbfWidth. */
  function MbfFieldsOf(best: nat): MbfFields {
    var w := MbfWidth(best);
    var high, low := Pow10(w - 2), Pow10(w - 4);
    QuotientIsNat(best, high);
    MbfFields(best / high, (best / 100) % low, best % 100)
  }

  /** Reading the first two, middle and last two digits of a value written
      at width w recovers the parts it was built from. */
  lemma DigitFields(best: nat, w: nat, points: nat, seconds: nat, missed: nat)
    requires w >= 8 && seconds < Pow10(w - 4) && missed < 100
    requires best == points * Pow10(w - 2) + seconds * 100 + missed
    ensures best / Pow10(w - 2) == points
    ensures (best / 100) % Pow10(w - 4) == seconds
    ensures best % 100 == missed
  {
    var high, low := Pow10(w - 2), Pow10(w - 4);
    Pow10Add(w - 4, 2);
    assert Pow10(2) == 100;
    assert high == low * 100;
    var tail := seconds * 100 + missed;
    TailBound(w, seconds, missed);
    DivModUnique(best, high, points, tail);
    assert points * high == (points * low) * 100;
    assert best == (points * low + seconds) * 100 + missed;
    DivModUnique(best, 100, points * low + seconds, missed);
    DivModUnique(best / 100, low, points, seconds);
  }

  /** Seconds below 10^(w-4) and missed below 100 fill fewer than w-2 digits. */
  lemma TailBound(w: nat, seconds: nat, missed: nat)
    requires w >= 8 && seconds < Pow10(w - 4) && missed < 100
    ensures seconds * 100 + missed < Pow10(w - 2)
  {
    Pow10Add(w - 4, 2);
    assert Pow10(2) == 100;
    MulMonotone(seconds + 1, Pow10(w - 4), 100);
  }

  /** The sliced fields are the value's digits at MbfWidth. */
  lemma MbfUnpackDigits(best: nat)
    ensures var f := MbfUnpack(best);
      && best == f.points * Pow10(MbfWidth(best) - 2) + f.seconds * 100 + f.missed
      && f.seconds < Pow10(MbfWidth(best) - 4)
  {
    var s := PadTo(best, 8);
    var n := |s|;
    assert n == MbfWidth(best);
    var a, m, z := s[..2], s[2..n - 2], s[n - 2..];
    DigitsSlice(s, 0, 2);
    DigitsSlice(s, 2, n - 2);
    DigitsSlice(s, n - 2, n);
    assert s == a + (m + z);
    var p, t, k := ParseDigits(a), ParseDigits(m), ParseDigits(z);
    ParseConcat(m, z);
    assert Pow10(2) == 100;
    ParseConcat(a, m + z);
    assert MbfUnpack(best) == MbfFields(p, t, k);
  }

  /** Slicing the padded numeral is digit arithmetic on the value. */
  lemma MbfUnpackArithmetic(best: nat)
    ensures MbfUnpack(best) == MbfFieldsOf(best)
  {
    var f := MbfUnpack(best);
    MbfUnpackDigits(best);
    DigitFields(best, MbfWidth(best), f.points, f.seconds, f.missed);
  }

  /** Packing points, seconds and missed at width w (eight digits, or wider
      when the points have two significant digits) and unpacking gives them
      back. */
  lemma MbfPackRoundTrip(w: nat, points: nat, seconds: nat, missed: nat)
    requires w >= 8 && points < 100 && seconds < Pow10(w - 4) && missed < 100
    requires w > 8 ==> points >= 10
    ensures MbfUnpack(points * Pow10(w - 2) + seconds * 100 + missed) == MbfFields(points, seconds, missed)
  {
    var tail := seconds * 100 + missed;
    var best := points * Pow10(w - 2) + tail;
    TailBound(w, seconds, missed);
    PackedWidth(w, points, tail);
    assert MbfWidth(best) == w;
    DigitFields(best, w, points, seconds, missed);
    assert MbfFieldsOf(best) == MbfFields(points, seconds, missed);
    MbfUnpackArithmetic(best);
  }

  /** A value whose leading part is below 100 (and at least 10 when wider
      than eight digits) is read at width w. */
  lemma PackedWidth(w: nat, points: nat, tail: nat)
    requires w >= 8 && points < 100 && tail < Pow10(w - 2)
    requires w > 8 ==> points >= 10
    ensures MbfWidth(points * Pow10(w - 2) + tail) == w
  {
    var high := Pow10(w - 2);
    var best := points * high + tail;
    Pow10Add(w - 2, 2);
    Pow10Add(w - 2, 1);
    assert Pow10(2) == 100 && Pow10(1) == 10;
    MulMonotone(points + 1, 100, high);
    assert best < Pow10(w);
    if w > 8 {
      MulMonotone(10, points, high);
      WidthIs(best, w);
    } else {
      WidthAtMost(best, 8);
    }
  }

  /** The multi-blind score: cubes solved, cubes attempted, time in seconds. */
  datatype MbfScore = MbfScore(solved: nat, attempted: nat, seconds: nat)

  /** solved = 99 - points + missed and attempted = solved + missed. */
  function MbfDecode(best: nat): (score: MbfScore)
    ensures score.attempted == score.solved + best % 100
    ensures score.solved >= best % 100
    ensures score.solved + MbfFieldsOf(best).points == 99 + best % 100
    ensures score.seconds == MbfFieldsOf(best).seconds
  {
    var f := MbfUnpack(best);
    MbfUnpackArithmetic(best);
    var solved := 99 - f.points + f.missed;
    MbfScore(solved, solved + f.missed, f.seconds)
  }

  /** `formatted_time` of format_mbf_result: `m:ss` from a `divmod` by 60. */
  function ClockText(seconds: nat): string {
    NatToString(seconds / 60) + ":" + PadTo(seconds % 60, 2)
  }

  /** The text format_mbf_result prints for a score: `solved/attempted m:ss`. */
  function ScoreText(score: MbfScore): string {
    NatToString(score.solved) + "/" + (NatToString(score.attempted) + " " + ClockText(score.seconds))
  }

  /** format_mbf_result. The text reads back to the decoded score, and it is
      the only text that does. */
  function FormatMbf(best: nat): (text: string)
    ensures ParseMbf(text) == Some(MbfDecode(best))
    ensures forall other :: ParseMbf(other) == Some(MbfDecode(best)) ==> other == text
  {
    var score := MbfDecode(best);
    ScoreTextRoundTrip(score);
    assert forall other :: ParseMbf(other) == Some(score) ==> other == ScoreText(score) by {
      forall other | ParseMbf(other) == Some(score)
        ensures other == ScoreText(score)
      {
        ParseMbfExact(other, score);
      }
    }
    ScoreText(score)
  }

  /** Reads `m:ss` back into seconds: m a canonical numeral, ss two digits
      below 60. */
  function ParseClock(text: string): Option<nat> {
    match SplitOnce(text, ':')
    case None => None
    case Some((minutes, seconds)) =>
      if Canonical(minutes) && |seconds| == 2 && AllDigits(seconds) && ParseDigits(seconds) < 60
      then Some(ParseDigits(minutes) * 60 + ParseDigits(seconds))
      else None
  }

  /** Reads `solved/attempted m:ss` back into a score, with solved and
      attempted canonical numerals. */
  function ParseMbf(text: string): Option<MbfScore> {
    match SplitOnce(text, '/')
    case None => None
    case Some((solved, rest)) =>
      match SplitOnce(rest, ' ')
      case None => None
      case Some((attempted, clock)) =>
        match ParseClock(clock)
        case None => None
        case Some(seconds) =>
          if Canonical(solved) && Canonical(attempted)
          then Some(MbfScore(ParseDigits(solved), ParseDigits(attempted), seconds))
          else None
  }

  /** The printed clock reads back to the seconds, with a two-digit seconds
      field below 60. */
  lemma ClockTextRoundTrip(seconds: nat)
    ensures ParseClock(ClockText(seconds)) == Some(seconds)
  {
    var c, d := NatToString(seconds / 60), PadTo(seconds % 60, 2);
    ParseNatToString(seconds / 60);
    NoSeparatorIn(c, ':');
    assert ClockText(seconds) == c + [':'] + d;
    SplitOnceJoin(c, ':', d);
    assert Pow10(2) == 100;
  }

  /** The printed score reads back to the whole score. */
  lemma ScoreTextRoundTrip(score: MbfScore)
    ensures ParseMbf(ScoreText(score)) == Some(score)
  {
    var a, b := NatToString(score.solved), NatToString(score.attempted);
    var clock := ClockText(score.seconds);
    ParseNatToString(score.solved);
    ParseNatToString(score.attempted);
    NoSeparatorIn(a, '/');
    NoSeparatorIn(b, ' ');
    var rest := b + [' '] + clock;
    assert ScoreText(score) == a + ['/'] + rest;
    SplitOnceJoin(a, '/', rest);
    SplitOnceJoin(b, ' ', clock);
    ClockTextRoundTrip(score.seconds);
  }

  /** ParseClock accepts only the text the clock is printed as. */
  lemma ParseClockExact(text: string, seconds: nat)
    requires ParseClock(text) == Some(seconds)
    ensures text == ClockText(seconds)
  {
    SplitOnceParts(text, ':');
    var (m, ss) := SplitOnce(text, ':').value;
    CanonicalRoundTrip(m);
    PaddedRoundTrip(ss, 2);
    DivModUnique(seconds, 60, ParseDigits(m), ParseDigits(ss));
  }

  /** ParseMbf accepts only the text a score is printed as. */
  lemma ParseMbfExact(text: string, score: MbfScore)
    requires ParseMbf(text) == Some(score)
    ensures text == ScoreText(score)
  {
    SplitOnceParts(text, '/');
    var (a, rest) := SplitOnce(text, '/').value;
    SplitOnceParts(rest, ' ');
    var (b, clock) := SplitOnce(rest, ' ').value;
    CanonicalRoundTrip(a);
    CanonicalRoundTrip(b);
    ParseClockExact(clock, score.seconds);
  }

  /* ---------------- Dispatch on the event ---------------- */

  /** format_best_result: multi-blind decoding for "333mbf", the plain move
      count for "333fm" (both of the source's branches print `best` as is),
      and a time for every other event. Whatever the event, the text reads
      back to what was encoded: the multi-blind score, the move count, or
      the centiseconds. */
  function FormatBestResult(eventId: string, best: nat): (text: string)
    ensures eventId == "333mbf" ==>
      ParseMbf(text) == Some(MbfDecode(best))
      && forall other :: ParseMbf(other) == Some(MbfDecode(best)) ==> other == text
    ensures eventId == "333fm" ==>
      ParseInt(text) == Some(best)
      && forall other :: ParseInt(other) == Some(best) ==> other == text
    ensures eventId != "333mbf" && eventId != "333fm" ==>
      ParseTime(text) == Some(best)
      && forall other :: ParseTime(other) == Some(best) ==> other == text
  {
    if eventId == "333mbf" then FormatMbf(best)
    else if eventId == "333fm" then
      ParseIntToString(best);
      assert forall other :: ParseInt(other) == Some(best) ==> other == NatToString(best) by {
        forall other | ParseInt(other) == Some(best)
          ensures other == NatToString(best)
        {
          ParseIntExact(other, best);
        }
      }
      if best < 100 then NatToString(best) else NatToString(best)
    else FormatTime(best)
  }

  /** The two printed shapes on worked split times. */
  lemma TimeTextExamples()
    ensures TimeText(Clock(1, 1, 5)) == "1:01.05"
    ensures TimeText(Clock(0, 3, 5)) == "3.05"
    ensures TimeText(Clock(0, 6, 10)) == "6.10"
  {
    assert NatToString(1) == "1";
    assert NatToString(3) == "3";
    assert NatToString(6) == "6";
    assert PadTo(1, 2) == "01";
    assert PadTo(5, 2) == "05";
    assert PadTo(10, 2) == "10";
  }

  /** Worked values of format_time. */
  lemma FormatTimeExamples()
    ensures FormatTime(6105) == "1:01.05"
    ensures FormatTime(305) == "3.05"
    ensures FormatTime(610) == "6.10"
  {
    TimeTextExamples();
    assert TimeParts(6105) == Clock(1, 1, 5);
    assert TimeParts(305) == Clock(0, 3, 5);
    assert TimeParts(610) == Clock(0, 6, 10);
  }

  /** The worked multi-blind value unpacks as points 03, 837 seconds and
      3 missed: 99 solved of 102. */
  lemma MbfDecodeExample()
    ensures MbfDecode(3083703) == MbfScore(99, 102, 837)
  {
    assert Pow10(6) == 1000000;
    MbfPackRoundTrip(8, 3, 837, 3);
  }

  /** 837 seconds print as 13:57. */
  lemma ClockTextExample()
    ensures ClockText(837) == "13:57"
  {
    assert NatToString(13) == "13";
    assert PadTo(57, 2) == "57";
  }

  /** The score 99 of 102 in 837 seconds prints as 99/102 in 13:57. */
  lemma ScoreTextExample()
    ensures ScoreText(MbfScore(99, 102, 837)) == "99/102 13:57"
  {
    ClockTextExample();
    assert NatToString(99) == "99";
    assert NatToString(102) == "102";
  }

  /** The worked multi-blind value end to end. */
  lemma FormatMbfExample()
    ensures FormatMbf(3083703) == "99/102 13:57"
  {
    MbfDecodeExample();
    ScoreTextExample();
  }
}
