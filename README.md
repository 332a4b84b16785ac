# Lunch map core, modelled in Dafny

`lunch_map.py` builds an interactive map of lunch places in Antwerp. Its class
`LocationData` does four things:

- It parses `places.md`, a Markdown list of places with `- Name:`, `- Location:`,
  `- Cuisine:`, `- Price range:` and `- Note:` bullets, into one dictionary per place.
- It parses `lunch_log.md` into one visit per `### <date> — <name>` heading. A visit
  gets a description only when a `- **Location:**` bullet with some text follows the
  first occurrence of its heading text in the document. That occurrence need not be the
  visit's own heading: a repeated heading, or one whose text begins an earlier heading
  line, takes its bullet from the earlier place. Because the search uses `re.DOTALL`,
  the description runs from the bullet to the end of the document (see "## Findings").
- It tries to give each place `coordinates`. A place whose name is in a fixed table of
  known names gets the table's coordinates. Otherwise, a place with an address gets the
  geocoder's answer for it, if there is one. The address is completed with
  `, Antwerpen, Belgium` when it names neither the city nor the country. A place with
  neither, or one the geocoder has no answer for, gets no coordinates. The code also
  sets a `visited` flag: true when the place's name appears in the log.
- It puts the places that have coordinates into the `{locations_data}` placeholder of
  the page template.

The model has these modules:

- `Options`: the optional value (a Python `None` or an absent dictionary key).
- `Strings`: the `str` operations the code uses. These are `strip`, `startswith`, `in`,
  `split('\n')`, `split(':', 1)[1]` and `replace`.
- `Places`: `parse_places_md`. It is an imperative loop, `ParsePlaces`, proved equal to
  `Records`, an independent block-by-block description of the same result.
- `LunchLog`: `parse_lunch_log_md`. It is a loop, `ParseLunchLog`, over the heading
  matches, proved equal to `LogEntries`, whose descriptions are the `re.DOTALL`
  ones the code computes. It also holds the corrected one-line description and the
  entries built with it, `IntendedEntries`.
- `Geocoding`: the query rule, the table, enrichment of one place and of the list, the
  visited flag and the payload filter. The geocoder is a parameter
  `lookup: string -> Option<Coord>`.
- `LunchMap`: the class `LocationData`. Its fields `places` and `lunchLog` are the
  object's two lists. `GeocodeAllLocations` updates `places` and `GenerateMapHtml` reads
  them.

Coordinates are an opaque pair of reals, so nothing is computed on them.

The model follows the code on these points:

- The code looks up the table by the place's name. It does not look up by address.
- The code has no cache, so an address shared by several places is geocoded once for each of them (`SameAddressTwice`).
- It has no default coordinate, and it does not cap how far the description search runs.

## Model

| member | source | states |
|---|---|---|
| Strings.StripSpec | lunch_map.py:23 | `strip()` removes white space and only white space, from both ends; the result neither starts nor ends with white space |
| Strings.StripKeeps | lunch_map.py:23 | everything between two non-space characters survives `strip()` |
| Strings.StripAbsent | lunch_map.py:56 | `strip()` adds no character |
| Strings.AfterFirstColonSpec | lunch_map.py:28 | `split(':', 1)[1]` is what follows the first colon |
| Strings.JoinSplitLines | lunch_map.py:22 | `split('\n')` loses nothing: joining the pieces with line feeds gives the text back |
| Strings.SplitJoinLines | lunch_map.py:22 | splitting lines that hold no line feed, after joining them, gives those lines back |
| Strings.FindFrom | lunch_map.py:61 | the first position at or after `i` where a text occurs, or -1 when there is none |
| Strings.ReplaceAbsent | lunch_map.py:381 | `replace` leaves a text without the pattern unchanged |
| Strings.ReplaceSingle | lunch_map.py:381 | with exactly one occurrence, `replace` substitutes exactly that occurrence and keeps the rest |
| Places.ParsePlaces | lunch_map.py:17-41 | the loop returns the block-described records `Records` of the classified lines |
| Places.ScanIsRecords | lunch_map.py:22-39 | the line-by-line scan, with its final flush, equals the block description |
| Places.ClassifyMarked | lunch_map.py:23-36 | a marked line, once stripped, starts with its marker, and its value is the stripped text after the marker's colon |
| Places.ClassifyUnmarked | lunch_map.py:25-36 | a line is ignored exactly when its stripped text starts with none of the five markers |
| Places.Set | lunch_map.py:30-36 | a field line sets its key and leaves the other keys as they were |
| Places.LastValuePresent | lunch_map.py:29-36 | a record has a key exactly when some line of its block carries that key's marker |
| Places.LastValueIsLast | lunch_map.py:29-36 | a key holds the value of the last line of its block with that marker: later lines overwrite |
| Places.EmptyMeansNoKeys | lunch_map.py:26 | `if current_place` is false exactly for the dictionary without keys |
| Places.EmptyRecordOf | lunch_map.py:26-38 | a block gives no record exactly when none of its lines carries a marker |
| Places.RecordNames | lunch_map.py:25-39 | the records' names, in order, are those of the `- Name:` lines, preceded by one nameless record exactly when a field line comes before the first `- Name:` line |
| Places.RecordCount | lunch_map.py:25-28 | when every field line follows a `- Name:` line, there is one record per `- Name:` line, named by it |
| Places.LeadingRecordNameless | lunch_map.py:29-39 | a field line before any `- Name:` line gives an extra leading record without a `name` key |
| Places.AllNamedIff | lunch_map.py:25-39 | every record has a `name` key exactly when no field line comes before the first `- Name:` line |
| Places.RecordsKeys | lunch_map.py:28-36 | records hold only the keys name, address, cuisine, price_range and note |
| Places.UnmarkedLineIgnored | lunch_map.py:25-36 | inserting a line with no marker anywhere does not change the result |
| LunchLog.FirstHeadingFrom | lunch_map.py:47-51 | the leftmost position where the heading pattern matches, or -1 when there is none |
| LunchLog.HeadingOfSpec | lunch_map.py:47-51 | a line gives a match exactly when the pattern matches in it; the match is the leftmost one, its date is `\d{4}-\d{2}-\d{2}` and its name is not empty |
| LunchLog.HeadingsAppend | lunch_map.py:51 | matches come in document order: the matches of a concatenation concatenate |
| LunchLog.HeadingsOfLine | lunch_map.py:51 | one line gives at most one match, one exactly when the pattern matches somewhere in it, and then the leftmost match with its date and name groups |
| LunchLog.HeadingsDated | lunch_map.py:47 | every match's date has the date shape |
| LunchLog.IsHeading | lunch_map.py:47 | a line made of `### `, a date, ` — ` and a name is matched with exactly that date and name |
| LunchLog.MarkerFrom | lunch_map.py:61 | the first location bullet after a position whose capture can take a character |
| LunchLog.LineEnd | lunch_map.py:61 | the end of the line a position is on |
| LunchLog.BulletDescription | lunch_map.py:61-63 | after a heading, the corrected description is the bullet's line stripped. The as-written one runs to the end of the document. A repeated heading later on changes neither |
| LunchLog.LineEndAfter | lunch_map.py:61 | a line holding a text without line feeds ends right after it |
| LunchLog.LocationDescriptionSingleLine | lunch_map.py:61-63 | the corrected description never holds a line feed |
| LunchLog.StripKeepsInnerLineFeed | lunch_map.py:63 | `strip()` keeps a line feed with text on both sides of it |
| LunchLog.AsWrittenCrossesLines | lunch_map.py:61 | as written, any later text makes the description cross into the next lines |
| LunchLog.DescriptionFinding | lunch_map.py:61 | a concrete log in which the as-written description swallows the next heading |
| LunchLog.ParseLunchLog | lunch_map.py:43-67 | the loop returns one entry per heading match, in order, with the `re.DOTALL` description (`LogEntries`) |
| LunchLog.LogEntriesSpec | lunch_map.py:53-65 | each entry has its match's date, which has the date shape, its stripped name and `visited` true; it has a description exactly when a location marker with a character after it follows the first occurrence of its heading text, and the description is then the rest of the document after the leftmost such marker, stripped |
| LunchLog.DescriptionAsWrittenSpec | lunch_map.py:61-63 | the `re.DOTALL` search finds the leftmost marker after the heading text's first occurrence and captures to the end of the document; `None` when the heading text or such a marker is missing |
| LunchLog.IntendedEntriesSpec | lunch_map.py:53-65 | the entries with the corrected description differ from the parsed ones only in that description, which holds no line feed; an entry with a corrected description also has one as written |
| LunchLog.IntendedImpliesAsWritten | lunch_map.py:61-63 | when the corrected search finds a description, so does the `re.DOTALL` one |
| LunchLog.RepeatedHeadingFirstBullet | lunch_map.py:61 | when the same heading occurs twice, the description comes from the first visit's bullet, never from the second visit's own bullet, so both visits get the same description |
| Geocoding.SuffixNamesCity | lunch_map.py:74 | the added suffix names both Antwerpen and Belgium |
| Geocoding.QuerySpec | lunch_map.py:73-76 | the query starts with the address and names the city or the country. It equals the address exactly when the address already names one of them, and qualifying twice changes nothing |
| Geocoding.LocatePlace | lunch_map.py:135-141 | one turn changes only `coordinates`: table coordinates for a table name; otherwise, with an address, exactly the geocoder's answer for its query, or no change when it answers `None`; no change without an address; never removes coordinates |
| Geocoding.LocateAllSnoc | lunch_map.py:134 | the loop handles the places one after the other |
| Geocoding.LocateAllKeeps | lunch_map.py:134-143 | enrichment keeps the number, the order and the names of the places and every key but `coordinates` |
| Geocoding.RequestsContain | lunch_map.py:138-139 | each place's query is among the queries sent |
| Geocoding.LookupOnlyForRequests | lunch_map.py:135-139 | the result depends on the geocoder only at the queries sent, so table names and places without an address are located without it |
| Geocoding.RequestsCount | lunch_map.py:138-139 | the `j`-th query is for the address of the `j`-th listed place, and the listed places are exactly those not in the table that have an address, each once, in increasing index order |
| Geocoding.RequestsInOrder | lunch_map.py:138-139 | one query per listed place, in the order of the list, for that place's completed address |
| Geocoding.GeocodedExact | lunch_map.py:135-138 | an index is listed exactly when its place has a name outside the table and an address |
| Geocoding.GeocodedIncreasing | lunch_map.py:134 | the listed indices are strictly increasing |
| Geocoding.Geocoded | lunch_map.py:138 | the indices of the places the geocoder is asked about: each has an address and a name outside the table |
| Geocoding.SameAddressTwice | lunch_map.py:138-139 | without a cache, two places with the same address send the same query twice |
| Geocoding.LocateAllIdempotent | lunch_map.py:134-143 | enriching twice with the same geocoder is enriching once |
| Geocoding.LocatedIff | lunch_map.py:135-141 | a place without coordinates gets them exactly when its name is in the table or the geocoder answers for its address |
| Geocoding.MarkVisitedSnoc | lunch_map.py:147 | the second loop handles the places one after the other |
| Geocoding.MarkVisitedSpec | lunch_map.py:146-148 | every place gets `visited`, true exactly when some log entry has its name; nothing else changes |
| Geocoding.PayloadIndices | lunch_map.py:379 | the payload is exactly the subsequence of places with coordinates: strictly increasing indices, and an index taken exactly when its place has coordinates |
| Geocoding.PayloadAppend | lunch_map.py:379 | filtering a concatenation concatenates the filtered parts |
| Geocoding.PayloadMembers | lunch_map.py:379 | a place is in the payload exactly when it is in the list and has coordinates; the payload is the whole list exactly when all have coordinates |
| Geocoding.PayloadIdempotent | lunch_map.py:379 | filtering twice is filtering once |
| Geocoding.PayloadMarkVisited | lunch_map.py:146-148 | setting the visited flags does not change which places reach the payload |
| Geocoding.PayloadAfterEnrichment | lunch_map.py:135-141 | a parsed place with neither a table name nor an address never reaches the payload; one with a table name always does |
| LunchMap.LocationData.constructor | lunch_map.py:13-15 | a new object has no places and no visits |
| LunchMap.LocationData.GeocodeAllLocations | lunch_map.py:120-148 | the log is unchanged and `ok` holds exactly when every place has a name. On success the places are enriched, then flagged, and the queries are those of `RequestsAll`. On a `KeyError` at the first nameless place, the earlier places are enriched and the rest are unchanged |
| LunchMap.LocationData.GenerateMapHtml | lunch_map.py:379-381 | with one placeholder, the page is the template with the serialised payload in its place; with none, it is the template |
| LunchMap.LocateEach | lunch_map.py:134-143 | the first loop stops at the first nameless place or at the end; the places before are enriched and the queries are theirs |
| LunchMap.MarkEach | lunch_map.py:146-148 | the second loop gives `MarkVisited` of the names |
| LunchMap.PipelinePayload | lunch_map.py:134-148 | for a document whose field lines follow a name, enrichment cannot fail. The payload then holds exactly the places with a table name or a geocoder answer, and flagging commutes with filtering |

## Left out

- HTTP, JSON decoding and float conversion in `geocode_address`: the geocoder is the parameter `lookup`. It is taken to give the same answer to the same query, and every failure (network, HTTP status, empty answer, bad JSON) is `None`.
- Floating point: coordinates are an opaque pair. Nothing is computed on them.
- `load_data` and `create_map`: these do file I/O. The parsers take the file contents as a string instead.
- The HTML, CSS and JavaScript of the template, and the bytes `json.dumps` produces: the serialiser is a parameter of `GenerateMapHtml`.
- Printing.
- `verify_coordinates.py` is not part of this model.
- `\d` is modelled on ASCII digits. Python's `\d` also matches other Unicode decimal digits.
- `re.findall` is modelled line by line. The heading pattern cannot cross a line feed, and its greedy `(.+)` takes the rest of the line, so each line holds at most one match. `\r` counts as an ordinary character, as it does for `.`.
- Key order in the dictionaries. A place is a record with one optional field per key, so the order in which keys were inserted, which `json.dumps` would show, is not modelled.
- `GeocodeAllLocations` works on a copy of the list and stores it. In the source the dictionaries are changed in place. No other reference to them is visible while the method runs, so the model does not represent that aliasing.
- `GeocodeAllLocations` returns the queries it sent. They stand for the requests the source makes as a side effect.
- `ParseLunchLog` and `LogEntries` follow the code as written, with the `re.DOTALL` description. The corrected description is used only by `IntendedEntries`; the rest of the model reads only the names and dates of the entries, which are the same under both.
- `LocationDescription` keeps the lazy `.*?` of the search able to cross lines, since that is what `re.DOTALL` is there for. Only the capture `(.+)` is limited to its line.

## Findings

| source | as written | input that shows it | evidently intended | confidence | as-written member | corrected member |
|---|---|---|---|---|---|---|
| lunch_map.py:61 | the search is compiled with `re.DOTALL`, so the location group `(.+)` matches line feeds and runs to the end of the document | the log `### 2024-01-01 — A`, `- **Location:** X`, `### 2024-01-02 — B` gives visit A the description `X` + line feed + `### 2024-01-02 — B` | the description is the rest of the bullet's line, `X` | not executed | LunchLog.DescriptionAsWritten (LunchLog.DescriptionFinding, LunchLog.AsWrittenCrossesLines) | LunchLog.LocationDescription (LunchLog.LocationDescriptionSingleLine, LunchLog.BulletDescription, LunchLog.IntendedEntriesSpec) |
