# AIRMET bulletin decoder — a verified model

This project models the decoding core of an AIRMET downloader. An AIRMET is a
US aviation weather advisory for IFR conditions, turbulence or icing. The
downloader fetches raw bulletins and turns each one into a dictionary:

1. The raw text is first *sanitized*. Four periods mark the end of the
   bulletin, three separate the AIRMET type from its states, the control
   bytes 0x01 and 0x1e mark the header, one-period lines mark group
   boundaries, and newlines become `#`.
2. The result is cut at its last `=` and split into groups at every `+`.
3. A group holding `*` is the *header*. It is parsed into an id (with ` AMD`
   for an amendment), the issuing station, the issue time and valid-until
   time as day/hour/minute, the type, and the hazard conditions.
4. Every other group is a *body group*. Four destructive extractors take it
   apart in turn, each returning the remaining text and the value it
   removed:
   - the VOR references (a `FROM … TO …` chain or a `BOUNDED BY …-…-…` ring);
   - the state block between `$` markers;
   - the free-text description after the last `$`;
   - the qualifier tags.

   A group whose qualifiers mention the freezing level (`FRZ`) is reported
   as unsupported.

The model also covers:
- the compass and type tables;
- `str_to_bool`;
- the "40ESE YDC" offset split;
- the two container classes `Bounds` and `States`, with their parsers,
  membership test and index-based iterators.

Python's string operations are written out with their exact meaning in
`pystr.dfy`:
- `replace` is leftmost and non-overlapping;
- `find`/`rfind` return `-1` when nothing is found;
- slices accept negative indices;
- `split` always yields at least one piece;
- `strip` and `int` are modelled as Python defines them.

Each regular expression is a hand-written scanner in `scan.dfy`, built to
give the same greedy and look-ahead outcome as the regex.

Modules, one per file:
- `Wrappers` holds `Option` and `Result`.
- `PyStr` holds Python string semantics.
- `Scan` holds the regex scanners.
- `Sanitizer`:
  - `_sanitize_for_reading`.
- `Splitter`:
  - the block split in `download`.
- `Vors`:
  - `_pop_vors`, its loops as methods proved against functions.
- `VorsExamples`:
  - worked examples for `_pop_vors`.
- `Jurisdictions`:
  - `_pop_states`.
- `Extract`:
  - `_pop_description` and `_pop_qualifiers`.
- `Header`:
  - `_header_to_dict`.
- `Tables`:
  - the two dictionaries and `str_to_bool`.
- `Offsets`:
  - the offset split.
- `Bulletin`:
  - the group loop of `download`.
- `Subclasses`:
  - `Bounds` and `States`.

Quirks of the source that the model reproduces as written:
- **`rfind` of -1.** When `rfind` finds nothing, its `-1` used as a slice
  end drops the last character. This happens both in the body cut (airmet.py:139) and in
  `_pop_description` (airmet.py:711-715).
- **Prefix duplicated.** A `FROM` chain with no `TO` leaves the block end at
  0. When its one reference is not an over-run into the description, the
  remainder is the text before `FROM` followed by the whole text again
  (airmet.py:584, 644). `Vors.LoneFromDuplicates` proves this. When the
  reference does over-run (`FROM ABC DEF`), the end moves to -4
  (airmet.py:628), and the remainder is the text before `FROM` followed by
  the last four characters of the text (`Vors.LoneFromOverRun`).
- **Slice off by one.** After a caught description prefix, the state text is
  sliced from `start_of_block + m` instead of `start_of_block + 1 + m`
  (airmet.py:662). So one character before the end of the match stays in the
  block. `Jurisdictions.CaughtPrefixExample` shows the consequence: the
  block `$ABC#CA$` keeps its block and yields no states.
- **Missing coastal token.** `CSTL` without `CSTL WTRS` makes `list.index`
  raise (airmet.py:700). The model returns an error for it
  (`Jurisdictions.CoastalErrorExample`), and the error ends that bulletin's
  loop.
- **Discarded replace.** `airmet_no_vor.replace("##", "$")` at airmet.py:178
  throws its result away, so it has no effect. (`_pop_states` repeats the
  same replacement itself.)
- **Header carried over.** `header_dict` is never reset between bulletins. A
  bulletin without a header group reports the previous bulletin's header,
  and the very first one fails. The model takes the previous header as a
  parameter of `Bulletin.Decode`.
- **Offset arguments discarded.** `Bounds.__init__` computes `dir_args` but
  calls `_vor_dir_to_lat_lon(vor)` without them (subclasses.py:49-63). Each
  point is therefore the stored coordinate of the bare identifier.
- **Surface winds renamed.** The hazard `STG SFC WNDS` is joined as
  `STD_SFC_WNDS`, with a D (airmet.py:761). `Header.ConditionsJoined` and
  `Header.ConditionsJoinedExample` state the tag as written.
- **Integer 1 is true.** `str_to_bool` is membership in a list that contains
  `True`. Because `1 == True` in Python, the integer `1` is true, while the
  string `"1"` is not.

## Model

| member | source | states |
|---|---|---|
| Scan.MatchAt | airmet.py:570-574 | a match of a pattern that starts at `i` ends after `i` and inside the text (the patterns of airmet.py:166, 570-574 and 733-746) |
| Scan.SearchFrom | airmet.py:570-574 | `re.search` from `i`: the leftmost start at or after `i` where the pattern matches, with the end of that match; none exactly when no start matches |
| Scan.FindAll | airmet.py:571-574 | `re.finditer` from `i`: every reported span lies in the text after `i` and is a match of the pattern; `FindAllOrdered` and `FindAllComplete` state the rest |
| Scan.FindAllOrdered | airmet.py:571-574 | the reported spans are in order and do not overlap |
| Scan.FindAllComplete | airmet.py:571-574 | no match is skipped: every index at or after `i` at which a match starts lies inside one of the reported spans |
| Sanitizer.Sanitize | airmet.py:526-567 | the seven substitutions in source order (four `replace`, two `re.sub`, then newline→`#`); what they achieve is stated by `SanitizeNoNewline`, `PeriodPrecedence`, `SanitizeWithoutPeriods`, `SanitizeGroupOf` and `SanitizeHeaderOf` |
| Sanitizer.SanitizeNoNewline | airmet.py:555 | the sanitized text never holds a newline |
| Sanitizer.PeriodPrecedence | airmet.py:543 | after `....`→`=` no run of four periods is left, and after `...`→`$` no run of three is left |
| Sanitizer.MarkAsRender | airmet.py:543-555 | the control-byte and newline substitutions together map each character on its own: 0x01→`+*`, 0x1e→`&`, newline→`#`, anything else unchanged |
| Sanitizer.SanitizeWithoutPeriods | airmet.py:526-567 | in a bulletin without periods, sanitizing gives that per-character rendering |
| Sanitizer.SanitizeIdentity | airmet.py:526-567 | text with no period, newline or control byte passes through unchanged |
| Sanitizer.SanitizePeriodsExample | airmet.py:543 | `....` becomes `=` and `...` becomes `$` |
| Sanitizer.FewPeriods | airmet.py:543 | fewer than three periods and no control byte: the first two substitutions change nothing |
| Sanitizer.SanitizeGroupOf | airmet.py:549 | `u.\n.v` becomes `u.+v`, which marks a group boundary |
| Sanitizer.SanitizeGroupExample | airmet.py:549 | `A.\n.B` becomes `A.+B` |
| Sanitizer.SanitizeHeaderOf | airmet.py:552 | for any lines `u` and `v` free of periods, newlines and control bytes, `u00\n.\nv` becomes `u00*+v`, which closes the header |
| Sanitizer.SanitizeHeaderExample | airmet.py:552 | `1200\n.\nX` becomes `1200*+X` |
| Sanitizer.HeaderTime | airmet.py:552 | when `u` and `v` hold no newline, the substitution for the header-closing time hits exactly the one occurrence between them |
| Splitter.Body | airmet.py:139 | the body is a prefix of the sanitized text; `BodyBeforeLastEnd` says which one |
| Splitter.HeaderText | airmet.py:156 | the header text holds no `*`; `HeaderTextFacts` says it is the group with only the `*` removed |
| Splitter.DropSeeSeries | airmet.py:166-168 | everything after the first `$…$#.` span, or the whole group; `DropSeeSeriesFacts` states that the result is that suffix |
| Splitter.Groups | airmet.py:142 | there is always at least one group |
| Splitter.BodyBeforeLastEnd | airmet.py:139 | the body is the text before the last `=`; without any `=` it is the text minus its last character; the body holds an `=` only if the text holds two or more |
| Splitter.GroupsPartitionBody | airmet.py:139-142 | rejoining the groups with `+` gives the body, the group count is the `+` count plus one, and no group holds `+` |
| Splitter.IsHeaderIff | airmet.py:153 | a group is the header exactly when it holds `*` |
| Splitter.HeaderTextFacts | airmet.py:156 | the header text is the group with every `*` dropped and every other character kept, in order; so it holds no `*` and is no longer than its group |
| Splitter.DropSeeSeriesFacts | airmet.py:166-168 | dropping the SEE SIGMET span leaves a suffix of the group that starts right after a `$…$#.` match |
| Vors.Collect | airmet.py:570-604 | the chain scheme when `FROM` matches, else the ring scheme when `BOUNDED BY` matches, else nothing; `Gather` builds each collection (its loop `GatherCandidates` is proved equal to it), and `CollectInText` bounds the start and end |
| Vors.FilterAll | airmet.py:610-634 | the quality checks over all candidates; `FilterCandidates` is the loop proved equal to it, and `FilterKeepsRefs` and `KeptRefsShape` state what it keeps |
| Vors.CandidatesOf | airmet.py:586-588 | one candidate per match, in match order, each holding the matched text and the match end |
| Vors.MaxEndPos | airmet.py:589-590 | the block end is at least every candidate's end and is one of them, or 0 when there are none |
| Vors.Gather | airmet.py:582-590 | the first match opens the candidate list, followed by one candidate per follow-on match |
| Vors.Pop | airmet.py:606-607 | with neither scheme matching, the text is returned unchanged with no references; otherwise the references are the kept candidates in order |
| Vors.GatherCandidates | airmet.py:582-604 | the append loop builds exactly the collection `Gather` describes |
| Vors.FilterCandidates | airmet.py:610-634 | the quality-check loop yields exactly the references and block end of `FilterAll` |
| Vors.MaxEnd | airmet.py:636-642 | the reset loop computes the largest candidate end |
| Vors.PopVors | airmet.py:569-645 | the method returns exactly the remainder and references of `Pop` |
| Vors.FilterKeepsRefs | airmet.py:610-634 | the block-end bookkeeping never changes which references are kept: they are `KeptRefs` |
| Vors.KeptRefsAppend | airmet.py:610-634 | kept references follow candidate order: the references of `a + b` are those of `a` followed by those of `b` |
| Vors.CleanAvoids | airmet.py:614 | a cleaned candidate holds no `#` and no `-` |
| Vors.KeptRefShape | airmet.py:614-630 | a kept reference is at most ten characters, holds no `#` or `-`, and has no leading or trailing whitespace |
| Vors.KeptRefsShape | airmet.py:610-634 | every reference in the list has that shape |
| Vors.KeptRefChecks | airmet.py:616-627 | time codes and bare numbers are dropped, and an over-run is cut to its first word |
| Vors.LoneFromDuplicates | airmet.py:584 | a `FROM` with no `TO`, whose one reference did not run into the description, leaves the text before `FROM` followed by the whole text (block end 0, airmet.py:644) |
| Vors.LoneFromOverRun | airmet.py:584-644 | a `FROM` with no `TO` whose reference passes the checks but ran into the description leaves the text before `FROM` followed by the text's last four characters (block end -4, airmet.py:628) |
| Vors.FilterKeepsEnd | airmet.py:621-628 | when every candidate passes and none over-runs, the block end is left as the loops set it |
| Vors.PopCutsBlock | airmet.py:644 | in that case the remainder is `text[:start] + text[end:]`, with `start` and `end` inside the text |
| Vors.CollectInText | airmet.py:570-604 | the start and initial end of a collection lie inside the text |
| VorsExamples.ChainExample | airmet.py:570-645 | `FROM 40ESE YDC TO 30NNE EPH TO GEG` gives `["40ESE YDC","30NNE EPH","GEG"]` and remainder `""` |
| VorsExamples.RingExample | airmet.py:573-645 | `BOUNDED BY TOU-EPH-DBS` gives `["TOU","EPH","DBS"]` and remainder `""` |
| VorsExamples.OverRunExample | airmet.py:618-630 | the over-run `TO EPH MTN` is cut to `EPH` |
| Jurisdictions.PopStates | airmet.py:647-707 | `_pop_states`; its outcomes are stated by `BlockIffTwoMarkers`, `NoBlockNoStates`, `UnchangedIff`, `StateListRoundTrip` and `CoastalOutcome` |
| Jurisdictions.CaughtFrom | airmet.py:660 | the greedy `([A-Z]{3,}\s*)+` match ends where neither whitespace nor another three-capital run follows |
| Jurisdictions.ClipTrailers | airmet.py:668-674 | clipping the trailers leaves a prefix of the text that holds no `$UPDT`, and text without `$UPDT` is left whole |
| Jurisdictions.CoastalStates | airmet.py:698-700 | the coastal parse succeeds exactly when the merged split holds `CSTL_WTRS`; it then is the split with the first `CSTL_WTRS`, and only that one, written back as `CSTL WTRS` |
| Jurisdictions.MarkersOrdered | airmet.py:653-654 | the first `$` and the last `$` are both missing or both present, and the first comes no later than the last |
| Jurisdictions.MarkersDiffer | airmet.py:655 | when the first and last `$` coincide, the text holds fewer than two `$` |
| Jurisdictions.BlockIffTwoMarkers | airmet.py:653-655 | there is a state block exactly when the marked text holds two `$` or more |
| Jurisdictions.NoBlockNoStates | airmet.py:655-656 | with fewer than two `$`, the result is the text with `##`→`$` and no states |
| Jurisdictions.UnchangedIff | airmet.py:691-705 | the text comes back marked but otherwise unchanged, with no states, exactly when there is no block or the block is neither a state list nor mentions `CSTL` |
| Jurisdictions.StateListRoundTrip | airmet.py:691-694 | a state list is cut out down to its closing `$`, and rejoining the states with spaces gives the cleaned block |
| Jurisdictions.StateCodes | airmet.py:676 | every state of a space-separated list is a two-letter upper-case code |
| Jurisdictions.CoastalOutcome | airmet.py:695-701 | a coastal block fails exactly when the merged split lacks `CSTL_WTRS`; otherwise its states are the `CoastalStates` parse of the block (only the first `CSTL_WTRS` rewritten), they include `CSTL WTRS`, and the block is cut out |
| Jurisdictions.StateListExample | airmet.py:647-707 | `$ID MT WY$` gives `["ID","MT","WY"]` with remainder `$` |
| Jurisdictions.CoastalExample | airmet.py:695-701 | `$CA AND CSTL WTRS$` gives `["CA","CSTL WTRS"]` |
| Jurisdictions.CoastalErrorExample | airmet.py:700 | `$CA CSTL$` raises: `CSTL_WTRS` is not in the list |
| Jurisdictions.CaughtPrefixExample | airmet.py:660-662 | `$ABC#CA$` keeps a character of the caught prefix in its block, so no states are found and the text stays as it was |
| Extract.PopDescription | airmet.py:709-717 | `_pop_description`; `PopDescriptionSplits`, `PopDescriptionNoMarker` and `PopDescriptionClean` state its result |
| Extract.PopQualifiers | airmet.py:719-729 | `_pop_qualifiers`; `PopQualifiersFacts` states its result |
| Extract.PopDescriptionSplits | airmet.py:711-717 | with a `$` present, the remainder is exactly the text before the last one and the description is what follows it, with `#` as spaces |
| Extract.PopDescriptionNoMarker | airmet.py:711-715 | without a `$` the description is the whole text and the remainder loses its last character |
| Extract.PopDescriptionClean | airmet.py:713 | the description holds neither `$` nor `#` |
| Extract.PopDescriptionExample | airmet.py:709-717 | `#MTN$CIG BLW 010#VIS BLW 3SM` gives `#MTN` and `CIG BLW 010 VIS BLW 3SM` |
| Extract.PopQualifiersFacts | airmet.py:719-729 | empty text exactly gives no tags; no tag holds `#`; rejoining with `#` gives the text without its one dropped leading `#` or space |
| Extract.PopQualifiersExample | airmet.py:719-729 | `""` gives `[]`, and `#MTN OBSCN#FRZLVL` gives the two tags |
| Header.ParseHeader | airmet.py:731-791 | `_header_to_dict`; `FindSpans`, `HeaderTimes`, `AmendedId`, `StationCode`, `HeaderType`, `ConditionsAreWords`, `TwoConditions` and `ConditionsJoined` state its result |
| Header.PyInt | airmet.py:764-770 | `int()` succeeds only on text that is not blank after stripping |
| Header.FindSpans | airmet.py:741-755 | the required fields are found exactly when the id, issue-time, type, conditions and valid-time searches all match, each span being a match of its pattern |
| Header.PyIntDigits | airmet.py:764-770 | `int` of two ASCII digits is their decimal value |
| Header.ClockOfDigits | airmet.py:764-770 | a six-digit code gives day, hour and minute from characters [0:2], [2:4] and [4:6] |
| Header.IssueTextDigits | airmet.py:743-753 | the issue time is the six digits before the `#` |
| Header.ValidTextCases | airmet.py:746-755 | a valid time that reads as a clock is six digits |
| Header.ValidSpaced | airmet.py:755 | with single spaces around `UNTIL`, the valid time is the six trailing digits |
| Header.ValidUnchanged | airmet.py:755 | with another whitespace character there, `replace` leaves the span whole, so `int` then fails on `VA` |
| Header.HeaderTimes | airmet.py:764-786 | in a parsed header both time strings are six digits, the day/hour/minute fields are their two-digit integers, and year and month are the given ones |
| Header.StationText | airmet.py:748-752 | the station; `StationCode` states its result |
| Header.StationCode | airmet.py:742-752 | the station is the four-character code after the first `#&`, or empty text when the search finds none |
| Header.AdvisoryIdCode | airmet.py:741-748 | the id is the four characters after the opening `#` |
| Header.TypeWord | airmet.py:744-754 | a type match is `#AIRMET`, one whitespace character and a non-empty `\w` word; the field is that word when the whitespace is a plain space, and the whole match otherwise, since `replace` then finds no `#AIRMET ` |
| Header.HeaderType | airmet.py:744-754 | the type of a parsed header is read that way from the first `#AIRMET` match of the header from its main block on, with ` AMD` removed when amended |
| Header.AmendedId | airmet.py:737-758 | the id is a four-character code, followed by ` AMD` exactly when the main block holds `AMD` |
| Header.Conditions | airmet.py:760-762 | the hazard list; `ConditionsAreWords`, `TwoConditions` and `ConditionsJoined` state its result |
| Header.ConditionsAreWords | airmet.py:760-762 | no condition holds a space |
| Header.TwoConditions | airmet.py:760-762 | for two one-word hazards `x` and `y` (capitals without O, W, M or D, and `y` not starting with V), `FOR x AND y VALID` gives `[x, y]` |
| Header.ConditionsJoined | airmet.py:760-762 | for a one-word hazard `x`, `FOR x AND MTN OBSCN VALID`, `FOR x AND STG WNDS VALID` and `FOR x AND STG SFC WNDS VALID` give `[x, MTN_OBSCN]`, `[x, STG_WNDS]` and `[x, STD_SFC_WNDS]` |
| Header.CondForValidJoined | airmet.py:760 | dropping `FOR ` and ` VALID` leaves `x AND y` for any second hazard without R or V |
| Header.JoinTagsAfterWord | airmet.py:761 | the joins turn `x AND y` into `x AND tag` for each multi-word hazard `y` and its tag |
| Header.ConditionsJoinedExample | airmet.py:760-762 | `FOR IFR AND MTN OBSCN VALID` gives `["IFR","MTN_OBSCN"]`, and `FOR TURB AND STG SFC WNDS VALID` gives `["TURB","STD_SFC_WNDS"]` |
| Header.CondTags | airmet.py:761 | without `W` or `M` the multi-word tag merges change nothing |
| Header.CondAnd | airmet.py:761 | removing `AND ` leaves the two hazards separated by one space |
| Header.ConditionsExample | airmet.py:760-762 | `FOR ICE AND FRZLVL VALID` gives `["ICE","FRZLVL"]` |
| Tables.Bearing | airmet.py:470 | a bearing exists exactly for the table's keys |
| Tables.CompassRose | airmet.py:25-42 | there are sixteen points, and the `k`-th point clockwise is `225·k` tenths of a degree |
| Tables.CompassDomain | airmet.py:25-42 | the table's keys are exactly the sixteen points |
| Tables.CompassDistinct | airmet.py:25-42 | the sixteen point names are distinct |
| Tables.BearingRange | airmet.py:25-42 | every bearing is below a full turn and a whole number of sixteenths of a turn |
| Tables.ConditionOf | airmet.py:44-48 | a condition exists exactly for SIERRA, TANGO and ZULU |
| Tables.ConditionsDistinct | airmet.py:44-48 | SIERRA→IFR, TANGO→TURB, ZULU→ICE, and no two types share a condition |
| Tables.StrToBool | airmet.py:52-58 | `str_to_bool`; `StrToBoolSpellings` and `StrToBoolFallback` state its result |
| Tables.StrToBoolSpellings | airmet.py:52-54 | a true string lower-cases to `true`, `t`, `yes` or `y`; `tRUE` and `"1"` are false |
| Tables.StrToBoolFallback | airmet.py:52-58 | no spelling is on both lists; every false spelling, a missing value and 0 are false; a boolean is itself |
| Offsets.SplitOffset | airmet.py:405-420 | a reference has offset arguments exactly when it holds a space; without them the id is the whole reference, with them there are two and the id holds no space (also subclasses.py:50-60) |
| Offsets.OffsetFacts | airmet.py:405-420 | a bare id is looked up as it is; otherwise the id is the second token and the distance is all digits and a prefix of the first token; when that token has no other whitespace, distance then compass text is the token |
| Offsets.TokenParts | airmet.py:412-414 | the leading digit run and the rest of a token rejoin to the token |
| Offsets.OffsetOf | airmet.py:405-420 | digits, compass text, a space and an id split into exactly those parts |
| Offsets.OffsetExample | subclasses.py:50-60 | `40ESE YDC` gives distance `40`, compass `ESE` and id `YDC`; `YDC` is bare |
| Bulletin.DecodeGroup | airmet.py:165-213 | one body group through the four extractors; `GroupFacts` states its outcomes and `DecodeBodyGroup` is the loop body proved equal to it |
| Bulletin.Step | airmet.py:153-213 | one turn of the group loop; `StepGroup` is the method proved equal to it |
| Bulletin.Run | airmet.py:147-216 | the group loop; `RunLoop` is the method proved equal to it, and `RunGroups`, `RunHeader` and `ErrorStops` state its result |
| Bulletin.Decode | airmet.py:137-219 | one bulletin; `DecodeBulletin` is the method proved equal to it, and `DecodeFacts` states its result |
| Bulletin.FreezingPresent | airmet.py:195-198 | the loop's flag is set exactly when some qualifier contains `FRZ` |
| Bulletin.DecodeBodyGroup | airmet.py:165-213 | the loop body decodes a body group exactly as `DecodeGroup` does |
| Bulletin.StepGroup | airmet.py:153-213 | one turn of the loop: a header group replaces the header, any other group is decoded and appended, an exception ends the bulletin (`Step`) |
| Bulletin.RunLoop | airmet.py:147-216 | the loop over the groups computes exactly `Run`, stopping at the first exception |
| Bulletin.DecodeBulletin | airmet.py:137-219 | the method decodes a bulletin exactly as `Decode` does |
| Bulletin.ErrorStops | airmet.py:147-216 | once a group raises, the bulletin fails with that error |
| Bulletin.BodyGroups | airmet.py:153-165 | the groups without `*`, in order, never more than the groups; `BodyGroupsAreBody` says which |
| Bulletin.BodyGroupsAreBody | airmet.py:153-165 | a string is a body group exactly when it is one of the groups and holds no `*` |
| Bulletin.LastHeader | airmet.py:153-157 | the index of a group holding `*` after which no group holds `*`, or none exactly when no group does |
| Bulletin.RunGroups | airmet.py:147-216 | a completed loop appends one decoded group per body group, in order, and nothing else |
| Bulletin.RunHeader | airmet.py:153-157 | the header of a completed loop is the parse of the last header group, or the earlier one when there is none |
| Bulletin.GroupFacts | airmet.py:165-213 | a group fails exactly when `_pop_states` fails; it is unsupported exactly when a qualifier mentions `FRZ`; otherwise it keeps `_pop_vors`'s references and a description without `$` or `#` |
| Bulletin.RawTextClean | airmet.py:219 | the kept raw text holds neither control byte |
| Bulletin.DecodeFacts | airmet.py:137-219 | the product lists one decoded group per body group, in order, under the last header, else the carried-over one; without either the bulletin fails |
| Subclasses.VorLatLon | subclasses.py:197-214 | a coordinate exists exactly for an id in the table, and it is the stored one |
| Subclasses.Locate | subclasses.py:47-63 | a successful lookup gives one point per reference; `LocateFacts` says which |
| Subclasses.LocateFacts | subclasses.py:47-63 | every reference is located exactly when each bare id is in the table, and then the `k`-th point is the table entry of the `k`-th id |
| Subclasses.LocateStops | subclasses.py:47-63 | a missing reference makes the whole construction fail |
| Subclasses.Bounds.Init | subclasses.py:44-45 | the fields are set from the arguments, with both counters at 0 |
| Subclasses.Bounds.Create | subclasses.py:42-63 | a bounds object exists exactly when every reference is located; it then holds `_pop_vors`'s references and one point per reference, in order; otherwise it is the unbound-variable error |
| Subclasses.Bounds.LocatePoints | subclasses.py:47-63 | the point loop computes exactly `Locate` |
| Subclasses.Bounds.ParseVorString | subclasses.py:111-191 | the references equal the list component of `_pop_vors`, and are `[]` when neither scheme matches (subclasses.py:150-152) |
| Subclasses.Bounds.Iter | subclasses.py:65-68 | iteration restarts at index 0 with the count set to the number of points |
| Subclasses.Bounds.Next | subclasses.py:70-76 | the next point in order, advancing the index, or the end with nothing changed |
| Subclasses.Bounds.Points | subclasses.py:65-76 | iterating yields every point exactly once, in order, and then stops |
| Subclasses.Bounds.GetItem | subclasses.py:78-79 | `latlon_points[idx]`, counting negative indices from the end; an index out of range fails |
| Subclasses.ParseStateString | subclasses.py:298-300 | `_parse_state_string`; `ParseStateFacts` and `ParseStateCoastal` state its result |
| Subclasses.ParseStateFacts | subclasses.py:298-300 | no state token holds a space, and rejoining with spaces gives the text with `AND CSTL WTRS`→`CSTL_WTRS` |
| Subclasses.ParseStateCoastal | subclasses.py:298-300 | a list ending in `AND CSTL WTRS` ends in the one token `CSTL_WTRS` |
| Subclasses.ParseStateExample | subclasses.py:298-300 | `MS AL AND CSTL WTRS` gives `["MS","AL","CSTL_WTRS"]` |
| Subclasses.States.constructor | subclasses.py:271-274 | the states are the parse of the string |
| Subclasses.States.Contains | subclasses.py:276-280 | true exactly when the item equals some parsed state |
| Subclasses.States.Iter | subclasses.py:282-285 | iteration restarts at index 0 with the count set to the number of states |
| Subclasses.States.Next | subclasses.py:287-293 | the next state in order, advancing the index, or the end with nothing changed |
| Subclasses.States.Elements | subclasses.py:282-293 | iterating yields every state exactly once, in order, and then stops |

## Left out

- Network retrieval and file output in `download` (airmet.py:60-136,
  227-246). These are I/O, so the model starts from one bulletin's raw
  text.
- KML rendering in `plot_kmz` and `_add_poly_to_kml` (airmet.py:248-460).
  These are calls into a foreign library. Two parts of that code are kept:
  - the offset split at airmet.py:405-420;
  - the type-table lookup at airmet.py:276.
- The spherical trigonometry of `_vor_dir_to_lat_lon` (airmet.py:488-517,
  subclasses.py:218-244). This is floating-point numerics. The bearing
  lookup (airmet.py:470) is kept.
- Loading the VOR table from CSV (airmet.py:474-476,
  subclasses.py:204-206). This is file I/O and a pandas call. The table is a
  map parameter from identifier to a coordinate pair.
- The "not found" path (airmet.py:478-484, subclasses.py:208-214). It prints
  a message and then reads an unbound variable. The model treats it as an
  error value.
- The `Conditions` class (subclasses.py:253-267). It is an incomplete stub
  that does not parse.
- processor.py is not part of this model. It holds only empty classes.
- The debug and verbose `print` calls, the unconditional prints in
  `_pop_states`, the `group_idx` counter (which only feeds a print), and the
  `__main__` blocks.
- The module-global `year` and `month` read at airmet.py:775-782. They are
  parameters of `Header.ParseHeader` and `Bulletin.Decode`.
- `__str__` of `Bounds` and `States`, which only return the raw string.
- Subclasses.Bounds.GetItem: models an integer index only. A slice
  argument to `__getitem__` is not modelled.
- Subclasses.Bounds.Next: the counters are set to 0 by the constructor. In
  the source they do not exist before `__iter__`, so an early `__next__`
  raises AttributeError instead of ending at once. The same holds for
  `Subclasses.States.Next`.
- Character classes: `\w` and `\d` cover ASCII letters, digits and `_`
  only. Unicode letters and digits, which Python's regexes would also
  accept, are not modelled. `\s` is Python's whitespace set.
- Header.PyInt: models decimal digits with an optional sign and surrounding
  whitespace. Underscores and non-ASCII digits, which `int()` also accepts,
  are not modelled.
- Python's exceptions become `Err` values carrying the message Python 3.10
  would raise. For the two unbound-variable errors, Python 3.11 and later
  word the message differently ("cannot access local variable ..."). The
  `int()` message quotes the offending text as `repr` does only for text
  without quote marks, backslashes or unprintable characters
  (`Header.IntError`). The errors end the decoding of the bulletin, and the
  model does not follow them further out.
- Tables.StrToBool: the argument is text, a boolean, an integer or missing
  (`Tables.Arg`). A float argument is not modelled; in Python `1.0` is
  true and `0.0` false, as for the integers.
- Header.TwoConditions: covers two one-word hazards, and `ConditionsJoined` a
  one-word hazard followed by a multi-word one. Lists of three or more
  hazards, and hazard words holding O, W, M or D outside the three joined
  phrases, are described only by `Header.Conditions` itself and
  `ConditionsAreWords`.
