/** The small display mappers of filter.py: the ordinal text of a country
    rank (format_rank), the display name of an event code
    (format_event_name), and the way the event dropdown maps a chosen display
    name back to its event code. */
module Display {
  import opened Wrappers
  import opened Decimal

  /* ---------------- Ranks ---------------- */

  /** The suffix format_rank appends. It compares the whole rank with 1, 2
      and 3, not its last digit, so 21, 22 and 23 also get "th". */
  function OrdinalSuffix(rank: int): string {
    if rank == 1 then "st"
    else if rank == 2 then "nd"
    else if rank == 3 then "rd"
    else "th"
  }

  /** format_rank: the rank's decimal text followed by its suffix. The text
      reads back to the rank, and it is the only text that does. */
  function FormatRank(rank: int): (r: string)
    ensures |r| >= 3
    ensures ParseRank(r) == Some(rank)
    ensures forall other :: ParseRank(other) == Some(rank) ==> other == r
  {
    var r := IntToString(rank) + OrdinalSuffix(rank);
    ParseIntToString(rank);
    assert r[..|r| - 2] == IntToString(rank);
    assert r[|r| - 2..] == OrdinalSuffix(rank);
    assert forall other :: ParseRank(other) == Some(rank) ==> other == r by {
      forall other | ParseRank(other) == Some(rank)
        ensures other == r
      {
        ParseRankExact(other, rank);
      }
    }
    r
  }

  /** Reads a rank text back: a numeral as `str()` prints it, followed by the
      suffix format_rank gives that number. */
  function ParseRank(text: string): Option<int> {
    if |text| < 3 then None
    else match ParseInt(text[..|text| - 2])
      case None => None
      case Some(n) => if text[|text| - 2..] == OrdinalSuffix(n) then Some(n) else None
  }

  /** ParseRank accepts only the text format_rank prints for its value. */
  lemma ParseRankExact(text: string, rank: int)
    requires ParseRank(text) == Some(rank)
    ensures text == IntToString(rank) + OrdinalSuffix(rank)
  {
    ParseIntExact(text[..|text| - 2], rank);
    assert text == text[..|text| - 2] + text[|text| - 2..];
  }

  /** The rank text is the rank's own numeral followed by a two-letter suffix,
      and which suffix it is depends only on whether the rank is exactly 1, 2
      or 3. */
  lemma FormatRankReadsBack(rank: int)
    ensures var r := FormatRank(rank);
      && ParseInt(r[..|r| - 2]) == Some(rank)
      && (r[|r| - 2..] == "st" <==> rank == 1)
      && (r[|r| - 2..] == "nd" <==> rank == 2)
      && (r[|r| - 2..] == "rd" <==> rank == 3)
      && (r[|r| - 2..] == "th" <==> rank != 1 && rank != 2 && rank != 3)
  {
    var r := FormatRank(rank);
    ParseIntToString(rank);
    assert r[..|r| - 2] == IntToString(rank);
    assert r[|r| - 2..] == OrdinalSuffix(rank);
  }

  /** Worked values for the first ranks. */
  lemma FormatRankExamples()
    ensures FormatRank(1) == "1st" && FormatRank(2) == "2nd" && FormatRank(3) == "3rd"
    ensures FormatRank(4) == "4th"
  {
    assert IntToString(1) == "1" && IntToString(2) == "2";
    assert IntToString(3) == "3" && IntToString(4) == "4";
  }

  /** The whole-rank rule: 11, 21, 22 and 23 all get "th". */
  lemma FormatRankWholeRankExamples()
    ensures FormatRank(11) == "11th" && FormatRank(21) == "21th"
    ensures FormatRank(22) == "22th" && FormatRank(23) == "23th"
  {
    assert NatToString(11) == "11";
    assert NatToString(21) == "21";
    assert NatToString(22) == "22";
    assert NatToString(23) == "23";
  }

  /* ---------------- Event names ---------------- */

  /** The fixed table of format_event_name: 21 event codes and their names. */
  const EventDisplayNames: map<string, string> := map[
    "333" := "3x3",
    "222" := "2x2",
    "444" := "4x4",
    "555" := "5x5",
    "666" := "6x6",
    "777" := "7x7",
    "333bf" := "3x3 Blindfolded",
    "333fm" := "3x3 Fewest Moves",
    "333oh" := "3x3 One-Handed",
    "clock" := "Clock",
    "minx" := "Megaminx",
    "pyram" := "Pyraminx",
    "skewb" := "Skewb",
    "sq1" := "Square-1",
    "444bf" := "4x4 Blindfolded",
    "555bf" := "5x5 Blindfolded",
    "333mbf" := "3x3 Multi-Blind",
    "333mbo" := "3x3 Multi-Blind Old Style",
    "magic" := "Magic",
    "mmagic" := "Master Magic",
    "333ft" := "3x3 With Feet"
  ]

  /** The listed codes are exactly the 21 codes of the source table, so the
      fallback below applies to every other code. */
  lemma EventCodes()
    ensures EventDisplayNames.Keys == {"333", "222", "444", "555", "666", "777", "333bf", "333fm",
                                       "333oh", "clock", "minx", "pyram", "skewb", "sq1", "444bf",
                                       "555bf", "333mbf", "333mbo", "magic", "mmagic", "333ft"}
  {
  }

  /** format_event_name: the table's name for a listed code, the code itself
      for any other. */
  function FormatEventName(eventId: string): (name: string)
    ensures eventId !in EventDisplayNames ==> name == eventId
    ensures eventId in EventDisplayNames ==> name in EventDisplayNames.Values
  {
    if eventId in EventDisplayNames then EventDisplayNames[eventId] else eventId
  }

  /** No two listed codes share a display name, so a listed code's name
      identifies the code. */
  lemma EventNamesDistinct(a: string, b: string)
    requires a in EventDisplayNames && b in EventDisplayNames && a != b
    ensures FormatEventName(a) != FormatEventName(b)
  {
    assert b in EventDisplayNames.Keys - {a};
  }

  /** The NxN cube codes. */
  lemma FormatEventNameCubes()
    ensures FormatEventName("222") == "2x2"
    ensures FormatEventName("333") == "3x3"
    ensures FormatEventName("444") == "4x4"
    ensures FormatEventName("555") == "5x5"
    ensures FormatEventName("666") == "6x6"
    ensures FormatEventName("777") == "7x7"
  {
  }

  /** The 3x3, 4x4 and 5x5 variants. */
  lemma FormatEventNameVariants()
    ensures FormatEventName("333bf") == "3x3 Blindfolded"
    ensures FormatEventName("333fm") == "3x3 Fewest Moves"
    ensures FormatEventName("333oh") == "3x3 One-Handed"
    ensures FormatEventName("333mbf") == "3x3 Multi-Blind"
    ensures FormatEventName("333mbo") == "3x3 Multi-Blind Old Style"
    ensures FormatEventName("333ft") == "3x3 With Feet"
    ensures FormatEventName("444bf") == "4x4 Blindfolded"
    ensures FormatEventName("555bf") == "5x5 Blindfolded"
  {
  }

  /** The other puzzles. */
  lemma FormatEventNameOthers()
    ensures FormatEventName("clock") == "Clock"
    ensures FormatEventName("minx") == "Megaminx"
    ensures FormatEventName("pyram") == "Pyraminx"
    ensures FormatEventName("skewb") == "Skewb"
    ensures FormatEventName("sq1") == "Square-1"
    ensures FormatEventName("magic") == "Magic"
    ensures FormatEventName("mmagic") == "Master Magic"
  {
  }

  /** The code the event dropdown hands back for a chosen display name: the
      first available event shown under that name (`index` on the list of
      display names, then the code at that position). None where `index`
      would raise. */
  function EventIdForDisplay(events: seq<string>, display: string): (r: Option<string>)
    ensures r.Some? ==> exists k :: 0 <= k < |events| && events[k] == r.value
                          && FormatEventName(events[k]) == display
                          && forall j :: 0 <= j < k ==> FormatEventName(events[j]) != display
    ensures r.None? ==> forall i :: 0 <= i < |events| ==> FormatEventName(events[i]) != display
  {
    var names := seq(|events|, i requires 0 <= i < |events| => FormatEventName(events[i]));
    match IndexOf(names, display)
    case None =>
      assert forall i :: 0 <= i < |events| ==> names[i] == FormatEventName(events[i]) && names[i] in names;
      None
    case Some(k) =>
      assert names[k] == FormatEventName(events[k]);
      assert forall j :: 0 <= j < k ==> names[..k][j] == names[j] == FormatEventName(events[j]);
      Some(events[k])
  }

  /** When every available event is a listed code, choosing an event's
      display name selects that event. */
  lemma EventIdForDisplayRoundTrip(events: seq<string>, i: nat)
    requires forall j :: 0 <= j < |events| ==> events[j] in EventDisplayNames
    requires i < |events|
    ensures EventIdForDisplay(events, FormatEventName(events[i])) == Some(events[i])
  {
    var r := EventIdForDisplay(events, FormatEventName(events[i]));
    var e := r.value;
    if e != events[i] {
      EventNamesDistinct(e, events[i]);
    }
  }

  /** Without the listed-codes precondition the round trip fails: the
      unlisted code "3x3" is shown as "3x3", just like "333", and choosing
      that name selects "333" when "333" comes first. */
  lemma EventIdForDisplayCollision()
    ensures FormatEventName("3x3") == FormatEventName("333")
    ensures EventIdForDisplay(["333", "3x3"], FormatEventName("3x3")) == Some("333")
  {
  }
}
