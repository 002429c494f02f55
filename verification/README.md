# WCA ranking search: decoding and lookup core

A Dafny model of the pure core of `filter.py`, a small search over the WCA
results export. Given an event, a country and a rank ("lowest" or a number),
the program merges the results table with the single-ranks table, finds the
competitor holding that country rank, and displays the rank as an ordinal
and the encoded `best` value as text.

Modules, one per part of the program:

- `Decimal`: the numerals the program prints and reads. `str(n)`, `f"{n}"`,
  `f"{n:0Wd}"` zero padding, and `int(s)` on digit strings. It also holds
  the split at a first separator that the readers of the printed text use.
- `ResultFormat`: `format_time`, `format_mbf_result` and
  `format_best_result`. Each printed form has a reader (`ParseTime`,
  `ParseMbf`; `ParseInt` for the move count). The readers accept unpadded
  fields only as canonical numerals, and zero-padded fields (the `ss`
  seconds and `ff` hundredths) only as exactly two digits. Both directions
  are proved: the printed text reads back to the value, and the only text
  that reads back to a value is the one printed for it.
- `Display`: `format_rank`, with its reader `ParseRank` for the ordinal,
  the 21-entry `format_event_name` table, and the event dropdown's mapping
  from a chosen display name back to its code.
- `Rankings`: the row types, the inner merge (`merge_data`), `unique()` for
  the event and region choices, and `get_person_by_rank`.
- `Search`: the worked end-to-end example (one competitor ranked 1st).
- `Wrappers`: `Option`, for the places where the program answers `None`.

Modelling choices:

- The table rows hold `best` and `countryRank` as `int`. The decoders
  take `best` as a `nat`, that is, they require `best >= 0`.
- The rank box's text is taken already parsed, as `RankSpec = Lowest | Number(n)`.
- Tables are sequences in file order.
- The merge is a nested loop over results rows in order. Each results row
  contributes one merged row per matching ranks row, in ranks order. This
  is the left-key order that pandas documents for an inner merge.
- The multi-blind decoder is modelled as written. It zero-pads to eight
  digits, then slices `[:2]`, `[2:-2]` and `[-2:]` and applies `int()`.
  `MbfUnpackArithmetic` proves that this is digit arithmetic on the value,
  read at width max(8, digit count).

What the code does at its edges, and the model with it:

- Duplicate keys are not collapsed. The merge yields one row per matching
  pair of a results row and a ranks row (`MergeOne` with `MergeAppend`).
  That can be more rows than either table has, though never more than
  their product (`Merge`).
- A negative `best` is not rejected anywhere; the decoders simply run on it.
  The model requires `best >= 0` instead (see Left out).
- The multi-blind decoder reads a value of any width of eight digits or
  more. Only the first two and the last two digits are fixed; the middle
  field grows with the value (`MbfPackRoundTrip`).

## Model

| member | source | states |
|---|---|---|
| Decimal.NatToString | filter.py:90 | `str(n)` and `f"{n}"`: a canonical numeral (digits, no leading zero unless the number is 0) exactly as long as the number has digits |
| Decimal.ParseDigits | filter.py:95-97 | `int()` on a run of digits yields a value below 10 to the run's length |
| Decimal.ParseNatToString | filter.py:90 | reading a printed numeral back with `int()` yields the number |
| Decimal.CanonicalRoundTrip | filter.py:90 | `str(int(s)) == s` for a canonical numeral, so `str()` prints exactly one text per value |
| Decimal.ParseIntExact | filter.py:77-83 | the reader of printed integers accepts only the text `str()` prints for the value it returns |
| Decimal.PadTo | filter.py:90 | `f"{n:0Wd}"`: max(W, digit count) digits that read back to n, exactly W of them when n fits in W digits |
| Decimal.PaddedRoundTrip | filter.py:90 | a W-digit string is exactly the `:0Wd` text of its value, so the padded field of a given value is unique |
| Decimal.IndexOf | filter.py:168 | `list.index`: the position of the first occurrence, and None exactly when the value does not occur |
| ResultFormat.TimeParts | filter.py:87-89 | minutes*6000 + seconds*100 + hundredths equals the input, with seconds < 60 and hundredths < 100 |
| ResultFormat.TimePartsUnique | filter.py:88-89 | any decomposition within those bounds is the one format_time computes |
| ResultFormat.TimeTextRoundTrip | filter.py:90 | both printed shapes, `m:ss.ff` and `s.ff`, read back to minutes*6000 + seconds*100 + hundredths |
| ResultFormat.TimeTextShowsMinutes | filter.py:90 | the printed split time contains a colon exactly when it has whole minutes |
| ResultFormat.FormatTime | filter.py:86-90 | format_time's text reads back to the original centiseconds, so no two times print alike, and it is the only text that reads back to them; it shows the minutes colon exactly when the input is at least 6000 |
| ResultFormat.ParseTimeExact | filter.py:90 | a text the time reader accepts is exactly the text format_time prints for its value: canonical minutes above 0 with seconds below 60, or canonical seconds below 60 |
| ResultFormat.ParseTimeWithMinutes | filter.py:90 | the `m:ss.ff` shape reads back to its centiseconds |
| ResultFormat.ParseTimeSecondsOnly | filter.py:90 | the `s.ff` shape reads back to its centiseconds |
| ResultFormat.TimeTextExamples | filter.py:90 | split times (1, 1, 5), (0, 3, 5) and (0, 6, 10) print as "1:01.05", "3.05" and "6.10" |
| ResultFormat.FormatTimeExamples | filter.py:86-90 | 6105 -> "1:01.05", 305 -> "3.05", 610 -> "6.10" |
| ResultFormat.MbfUnpack | filter.py:94-97 | the points and missed fields read from the padded numeral are each below 100 |
| ResultFormat.MbfUnpackDigits | filter.py:94-97 | the value equals points*10^(w-2) + seconds*100 + missed, where w = max(8, digit count) and seconds < 10^(w-4) |
| ResultFormat.DigitFields | filter.py:94-97 | for any such decomposition: value / 10^(w-2) gives points, (value / 100) mod 10^(w-4) gives seconds, value mod 100 gives missed |
| ResultFormat.MbfUnpackArithmetic | filter.py:94-97 | slicing the zero-padded string equals the arithmetic reading of leading two, middle and last two digits |
| ResultFormat.TailBound | filter.py:96-97 | the seconds and missed fields together fit in the w-2 digits after the points |
| ResultFormat.PackedWidth | filter.py:94 | a packed value with two-digit points (one digit allowed at width 8) pads to exactly w digits |
| ResultFormat.MbfPackRoundTrip | filter.py:94-97 | packing points, seconds and missed at width w and unpacking returns them unchanged |
| ResultFormat.MbfDecode | filter.py:99-100 | attempted - solved == best mod 100 (the missed count), solved >= missed, solved + points == 99 + missed |
| ResultFormat.ClockTextRoundTrip | filter.py:101-102 | the printed `m:ss` reads back to the seconds, with a two-digit seconds field below 60 |
| ResultFormat.ScoreTextRoundTrip | filter.py:103 | `solved/attempted m:ss` reads back to the whole score |
| ResultFormat.ParseClockExact | filter.py:101-102 | a clock text the reader accepts is exactly the `m:ss` printed for its seconds |
| ResultFormat.ParseMbfExact | filter.py:103 | a score text the reader accepts is exactly the `solved/attempted m:ss` printed for that score |
| ResultFormat.FormatMbf | filter.py:93-103 | format_mbf_result's text reads back to the decoded solved, attempted and seconds, and it is the only text that does |
| ResultFormat.MbfDecodeExample | filter.py:93-100 | 3083703 decodes as 99 solved of 102 in 837 seconds |
| ResultFormat.ClockTextExample | filter.py:101-102 | 837 seconds print as "13:57" |
| ResultFormat.ScoreTextExample | filter.py:103 | that score prints as "99/102 13:57" |
| ResultFormat.FormatMbfExample | filter.py:93-103 | 3083703 -> "99/102 13:57" |
| ResultFormat.FormatBestResult | filter.py:106-112 | for each branch the text reads back to what was encoded (the multi-blind score, the move count as `str(best)` in both "333fm" branches, or the centiseconds), and it is the only text its reader accepts for that value |
| Display.FormatRank | filter.py:74-83 | the text reads back through ParseRank (a canonical numeral and the suffix for that number) to the rank, and it is the only text that does |
| Display.ParseRankExact | filter.py:74-83 | a rank text the reader accepts is exactly `str(rank)` followed by that rank's suffix |
| Display.FormatRankReadsBack | filter.py:74-83 | everything before the last two characters parses back to the rank; the suffix is "st", "nd" or "rd" exactly when the rank is 1, 2 or 3, and "th" exactly otherwise |
| Display.FormatRankExamples | filter.py:74-83 | 1st, 2nd, 3rd, 4th |
| Display.FormatRankWholeRankExamples | filter.py:74-83 | the whole rank is compared, not its last digit: 11th, 21th, 22th, 23th |
| Display.EventCodes | filter.py:116-138 | the listed codes are exactly the 21 codes of the table, so every other code takes the unchanged fallback |
| Display.FormatEventName | filter.py:115-139 | an unlisted code is shown unchanged; a listed code is shown under one of the 21 display names of the table at filter.py:117-137 |
| Display.EventNamesDistinct | filter.py:116-138 | no two listed event codes share a display name, so a listed code's name identifies it |
| Display.FormatEventNameCubes | filter.py:117-122 | "222" through "777" are shown as "2x2" through "7x7" |
| Display.FormatEventNameVariants | filter.py:123-137 | the blindfolded, fewest-moves, one-handed, multi-blind and feet codes are shown under their table names |
| Display.FormatEventNameOthers | filter.py:126-136 | clock, minx, pyram, skewb, sq1, magic and mmagic are shown under their table names; with the two lemmas above, all 21 listed codes are covered |
| Display.EventIdForDisplay | filter.py:159-168 | the code returned is the first available event shown under the chosen name; none is returned only when no available event is shown under it |
| Display.EventIdForDisplayRoundTrip | filter.py:159-168 | when every available event is a listed code, choosing an event's display name selects that event |
| Display.EventIdForDisplayCollision | filter.py:159-168 | without that condition the round trip fails: "3x3" and "333" display alike, and "333" wins |
| Rankings.Partners | filter.py:59-65 | one results row contributes no more rows than the ranks table has, and none exactly when no ranks row matches it on personId, eventId and best |
| Rankings.Merge | filter.py:59-65 | the inner merge has no more rows than the product of the two tables' sizes, so duplicate keys can make it longer than either table but no longer than that |
| Rankings.MergeOne | filter.py:59-65 | a one-row results table merges to exactly that row's partners; with MergeAppend, PartnersAppend and PartnersSound this gives one merged row per matching (results, ranks) pair, in results order and then ranks order |
| Rankings.PartnersAppend | filter.py:59-65 | pairing a results row with a concatenation of ranks tables concatenates the pairings, which with the one-row case gives one merged row per matching ranks row, in ranks order |
| Rankings.MergeEmpty | filter.py:59-65 | the merge is empty exactly when no results row and ranks row agree on personId, eventId and best |
| Rankings.PartnersSound | filter.py:59-65 | each merged row one results row contributes comes from a ranks row with equal keys |
| Rankings.MergeSound | filter.py:59-65 | every merged row is the combination of a results row and a ranks row equal on personId, eventId and best |
| Rankings.PartnersComplete | filter.py:59-65 | every ranks row matching a results row is paired with it |
| Rankings.MergeComplete | filter.py:59-65 | every matching (results, ranks) pair appears in the merge |
| Rankings.MergeAppend | filter.py:59-65 | merging concatenated results tables concatenates the merges, so the merge follows results order |
| Rankings.MergeDropsUnmatched | filter.py:59-65 | removing a results row that has no ranks partner, wherever it stands, leaves the merge unchanged |
| Rankings.Unique | filter.py:70-71 | unique() keeps exactly the values of its input, each once |
| Rankings.UniquePrefix | filter.py:70-71 | appending rows only appends new values, so the list is in order of first appearance |
| Rankings.AvailableEvents | filter.py:70 | the event choices are exactly the eventIds of the merged rows, without repeats |
| Rankings.AvailableRegions | filter.py:71 | the region choices are exactly the personCountryIds of the merged rows, without repeats |
| Rankings.Select | filter.py:144 | the filtered rows are no more than the table's and all have the event and region |
| Rankings.SelectMembers | filter.py:144 | the filtered rows are exactly the merged rows of the event and region |
| Rankings.SelectAppend | filter.py:144 | filtering a concatenation concatenates the filtered parts, so the filter keeps table order and every row's multiplicity |
| Rankings.MaxRank | filter.py:146 | "lowest" resolves to a countryRank that occurs and is at least every countryRank present |
| Rankings.FirstWithRank | filter.py:148-149 | the row returned is the first one holding the rank; nothing is returned exactly when no row holds it |
| Rankings.GetPersonByRank | filter.py:143-149 | whatever is found is a merged row of the chosen event and region, and a numeric lookup finds a row with exactly that countryRank |
| Rankings.NumberLookupStep | filter.py:144-149 | a numeric lookup returns the first row if it has the event, region and rank, else the lookup in the remaining rows |
| Rankings.GetPersonByRankNumber | filter.py:143-149 | a numeric rank returns the first merged row with that event, region and countryRank; nothing exactly when no row has all three |
| Rankings.GetPersonByRankLowest | filter.py:143-149 | "lowest" returns nothing exactly when the event and region have no rows; otherwise the first row of the group with the largest countryRank |
| Search.SingleCompetitorExample | filter.py:196-205 | one competitor ranked 1st for 3x3 in the US at 610: found by rank 1 and by "lowest", not by rank 2 or another country, displayed as "1st" and "6.10" |

## Left out

- `load_data` and `read_tsv_from_dropbox` (filter.py:9-43): HTTP fetch, TSV parsing, dtype coercion and `st.cache_data` are network I/O and library calls. The model takes the two tables as sequences.
- The empty-dataset guard and `st.stop()` (filter.py:53-55), and the Streamlit page, widgets, spinner and error display (filter.py:151-210). These are UI and process control. Only the display-name lookup of the event dropdown (filter.py:159-168) is modelled.
- Parsing the rank box with `.lower()` and `int()` (filter.py:190-193). That is Python's integer parser, with its whitespace, sign and underscore rules. The model takes the result as `RankSpec`.
- Floating point in `countryRank`: float32 storage, `int()` truncation in format_rank, and NaN from `max()` on a column of missing values. Ranks are whole integers here. An empty group is handled by returning nothing, which matches what the NaN comparison yields.
- Negative `best` codes (WCA writes -1 for DNF and -2 for DNS). These would go through Python's floor `divmod` and a minus sign. Every decoder requires `best >= 0`.
- The int32 width of `best`: no operation of the core overflows, so the width plays no part.
- pandas internals (`query`, `head`, `squeeze`, column broadcasting) beyond the filter, first-row and merge semantics above. `squeeze` on one row is modelled as returning that row.
- The merge order is the left-key order pandas documents for an inner merge, which pandas follows from version 2.2 on. Earlier pandas grouped inner-merge output by key. That changes which of several tied rows `get_person_by_rank` returns first.
- `format_event_name`'s table size: the number 21 itself is not proved as a cardinality (counting a 21-entry map literal is beyond the solver's budget here). `EventCodes` proves the key set equals the 21 listed codes, and each entry is proved by `FormatEventNameCubes`, `FormatEventNameVariants` and `FormatEventNameOthers`.
- The row display of filter.py:199-205 beyond the formatted rank and best result (name, event name and country are printed as they are).
