/**
  The places document parser (`LocationData.parse_places_md`).

  A places document is a list of bullet lines.  `- Name:` starts a new record; the
  lines `- Location:`, `- Cuisine:`, `- Price range:` and `- Note:` set a field of the
  record being built; every other line is ignored.  A record is a Python dictionary,
  modelled here as one optional value per key it may hold.
 */
module Places {
  import opened Options
  import opened Strings

  /** A latitude/longitude pair, treated as an opaque value. */
  datatype Coord = Coord(lat: real, lon: real)

  /**
    One place dictionary.  The parser fills the first five keys; enrichment adds
    `coordinates` and `visited`.  `None` means the key is absent from the dictionary.
   */
  datatype Place = Place(
    name: Option<string>,
    address: Option<string>,
    cuisine: Option<string>,
    priceRange: Option<string>,
    note: Option<string>,
    coordinates: Option<Coord>,
    visited: Option<bool>)

  /** The dictionary with no keys (`{}`). */
  const NoKeys := Place(None, None, None, None, None, None, None)

  /** The keys present in the dictionary, under their Python names. */
  function Keys(p: Place): set<string>
  {
    (if p.name.Some? then {"name"} else {})
    + (if p.address.Some? then {"address"} else {})
    + (if p.cuisine.Some? then {"cuisine"} else {})
    + (if p.priceRange.Some? then {"price_range"} else {})
    + (if p.note.Some? then {"note"} else {})
    + (if p.coordinates.Some? then {"coordinates"} else {})
    + (if p.visited.Some? then {"visited"} else {})
  }

  /** The keys the places parser can set. */
  const ParsedKeys: set<string> := {"name", "address", "cuisine", "price_range", "note"}

  /** Python's truth value of a dictionary: it is empty. */
  predicate IsEmpty(p: Place)
  {
    p.name.None? && p.address.None? && p.cuisine.None? && p.priceRange.None? && p.note.None?
    && p.coordinates.None? && p.visited.None?
  }

  lemma EmptyMeansNoKeys(p: Place)
    ensures IsEmpty(p) <==> Keys(p) == {}
  {
    if !IsEmpty(p) {
      assert p.name.Some? ==> "name" in Keys(p);
    }
  }

  /** The five line markers of a places document, in the order the parser tests them. */
  datatype Marker = Name | Location | Cuisine | PriceRange | Note

  function MarkerText(m: Marker): string
  {
    match m
    case Name => "- Name:"
    case Location => "- Location:"
    case Cuisine => "- Cuisine:"
    case PriceRange => "- Price range:"
    case Note => "- Note:"
  }

  /** What a line of the document is, to the parser. */
  datatype LineKind = Marked(marker: Marker, value: string) | Unmarked

  /** Every marker ends in its only colon. */
  lemma MarkerColon(m: Marker)
    ensures var t := MarkerText(m);
            |t| > 0 && t[|t| - 1] == ':' && ':' !in t[..|t| - 1]
  {
  }

  /** The first marker, in the order the parser tests them, that the stripped line begins with. */
  function MarkerOf(line: string): (r: Option<Marker>)
    ensures r.Some? ==> StartsWith(line, MarkerText(r.value))
  {
    if StartsWith(line, MarkerText(Name)) then Some(Name)
    else if StartsWith(line, MarkerText(Location)) then Some(Location)
    else if StartsWith(line, MarkerText(Cuisine)) then Some(Cuisine)
    else if StartsWith(line, MarkerText(PriceRange)) then Some(PriceRange)
    else if StartsWith(line, MarkerText(Note)) then Some(Note)
    else None
  }

  /** `line.split(':', 1)[1].strip()`. */
  function FieldValue(line: string): string
    requires ':' in line
  {
    Strip(AfterFirstColon(line))
  }

  /** How the parser reads one raw line: stripped, then tested against each marker in turn. */
  function Classify(raw: string): LineKind
  {
    var line := Strip(raw);
    match MarkerOf(line)
    case None => Unmarked
    case Some(m) =>
      MarkerColon(m);
      AfterMarker(line, MarkerText(m));
      Marked(m, FieldValue(line))
  }

  /**
    A marked line is one that, once stripped, begins with the marker, and its value is
    the text after the marker, trimmed: each marker's only colon is its last character
    and the value is taken after the first colon.
   */
  lemma ClassifyMarked(raw: string)
    ensures var k := Classify(raw);
            k.Marked? ==> StartsWith(Strip(raw), MarkerText(k.marker))
                          && k.value == Strip(Strip(raw)[|MarkerText(k.marker)|..])
  {
    var k := Classify(raw);
    if k.Marked? {
      MarkerColon(k.marker);
      AfterMarker(Strip(raw), MarkerText(k.marker));
    }
  }

  /** A line is ignored exactly when, once stripped, it begins with none of the markers. */
  lemma ClassifyUnmarked(raw: string)
    ensures Classify(raw).Unmarked? <==> forall m: Marker :: !StartsWith(Strip(raw), MarkerText(m))
  {
    if Classify(raw).Unmarked? {
      forall m: Marker ensures !StartsWith(Strip(raw), MarkerText(m)) {
        match m
        case Name => case Location => case Cuisine => case PriceRange => case Note =>
      }
    }
  }

  /** The record field a marker sets. */
  function Get(p: Place, m: Marker): Option<string>
  {
    match m
    case Name => p.name
    case Location => p.address
    case Cuisine => p.cuisine
    case PriceRange => p.priceRange
    case Note => p.note
  }

  /** `current_place[key] = v`: the field of `m` becomes `v`, every other key is kept. */
  function Set(p: Place, m: Marker, v: string): (r: Place)
    ensures Get(r, m) == Some(v)
    ensures forall m' :: m' != m ==> Get(r, m') == Get(p, m')
    ensures r.coordinates == p.coordinates && r.visited == p.visited
  {
    match m
    case Name => p.(name := Some(v))
    case Location => p.(address := Some(v))
    case Cuisine => p.(cuisine := Some(v))
    case PriceRange => p.(priceRange := Some(v))
    case Note => p.(note := Some(v))
  }

  /** Every line of the document, classified. */
  function Kinds(lines: seq<string>): (ks: seq<LineKind>)
    ensures |ks| == |lines| && forall i :: 0 <= i < |lines| ==> ks[i] == Classify(lines[i])
  {
    seq(|lines|, i requires 0 <= i < |lines| => Classify(lines[i]))
  }

  predicate MarkedAs(k: LineKind, m: Marker)
  {
    k.Marked? && k.marker == m
  }

  // ---------------------------------------------------------------------------
  // The parser as a left-to-right scan (the shape of the source's loop)
  // ---------------------------------------------------------------------------

  /** The loop's state: the records already appended, and `current_place`. */
  datatype ScanState = ScanState(done: seq<Place>, current: Place)

  /** `if current_place: places.append(current_place)`. */
  function Flush(st: ScanState): seq<Place>
  {
    st.done + (if IsEmpty(st.current) then [] else [st.current])
  }

  /** One iteration of the loop body, on a classified line. */
  function Step(st: ScanState, k: LineKind): ScanState
  {
    match k
    case Unmarked => st
    case Marked(m, v) =>
      if m == Name then ScanState(Flush(st), NoKeys.(name := Some(v)))
      else st.(current := Set(st.current, m, v))
  }

  /** The state after the loop has processed `ks`, starting from no records and `{}`. */
  function Scan(ks: seq<LineKind>): ScanState
  {
    if ks == [] then ScanState([], NoKeys)
    else Step(Scan(ks[..|ks| - 1]), ks[|ks| - 1])
  }

  /** `parse_places_md(content)`, line by line over `content.split('\n')`. */
  method ParsePlaces(content: string) returns (places: seq<Place>)
    ensures places == Records(Kinds(SplitLines(content)))
  {
    var lines := SplitLines(content);
    ghost var ks := Kinds(lines);
    places := [];
    var current := NoKeys;
    var i := 0;
    while i < |lines|
      invariant 0 <= i <= |lines|
      invariant ScanState(places, current) == Scan(ks[..i])
    {
      assert ks[..i + 1][..i] == ks[..i];
      match Classify(lines[i]) {
        case Unmarked =>
        case Marked(m, v) =>
          if m == Name {
            if !IsEmpty(current) {
              places := places + [current];
            }
            current := NoKeys.(name := Some(v));
          } else {
            current := Set(current, m, v);
          }
      }
      i := i + 1;
    }
    assert ks[..i] == ks;
    if !IsEmpty(current) {
      places := places + [current];
    }
    ScanIsRecords(ks);
  }

  // ---------------------------------------------------------------------------
  // The parser's result described by blocks (the reference definition)
  // ---------------------------------------------------------------------------

  /**
    The value of the last line in `block` that carries marker `m`: a later line with
    the same marker overwrites an earlier one.
   */
  function LastValue(block: seq<LineKind>, m: Marker): Option<string>
  {
    if block == [] then None
    else if MarkedAs(block[|block| - 1], m) then Some(block[|block| - 1].value)
    else LastValue(block[..|block| - 1], m)
  }

  /** A field is set exactly when some line of the block carries its marker. */
  lemma {:induction false} LastValuePresent(block: seq<LineKind>, m: Marker)
    ensures LastValue(block, m).Some? <==> exists i :: 0 <= i < |block| && MarkedAs(block[i], m)
  {
    if block != [] {
      var prefix := block[..|block| - 1];
      LastValuePresent(prefix, m);
      assert forall i :: 0 <= i < |prefix| ==> prefix[i] == block[i];
    }
  }

  /** A field set in a block holds the value of the last line carrying its marker. */
  lemma {:induction false} LastValueIsLast(block: seq<LineKind>, m: Marker)
    requires LastValue(block, m).Some?
    ensures exists i :: 0 <= i < |block| && block[i] == Marked(m, LastValue(block, m).value)
                        && forall k :: i < k < |block| ==> !MarkedAs(block[k], m)
  {
    var n := |block| - 1;
    if !MarkedAs(block[n], m) {
      var prefix := block[..n];
      LastValueIsLast(prefix, m);
      var i :| 0 <= i < n && prefix[i] == Marked(m, LastValue(prefix, m).value)
               && forall k :: i < k < n ==> !MarkedAs(prefix[k], m);
      assert prefix[i] == block[i];
      forall k | i < k < |block| ensures !MarkedAs(block[k], m) {
        if k < n { assert prefix[k] == block[k]; }
      }
    }
  }

  /** In a block that opens with the only line carrying `m`, the field holds that line's value. */
  lemma {:induction false} LastValueOfOpening(block: seq<LineKind>, m: Marker)
    requires |block| > 0 && MarkedAs(block[0], m)
    requires forall k :: 0 < k < |block| ==> !MarkedAs(block[k], m)
    ensures LastValue(block, m) == Some(block[0].value)
  {
    if |block| > 1 {
      var prefix := block[..|block| - 1];
      assert forall k :: 0 <= k < |prefix| ==> prefix[k] == block[k];
      LastValueOfOpening(prefix, m);
    }
  }

  /** The record a block of lines describes: each field holds the last value given for it. */
  function RecordOf(block: seq<LineKind>): (p: Place)
    ensures p.coordinates.None? && p.visited.None?
  {
    Place(LastValue(block, Name), LastValue(block, Location), LastValue(block, Cuisine),
          LastValue(block, PriceRange), LastValue(block, Note), None, None)
  }

  /** A block's record is empty exactly when no line of the block carries a marker. */
  lemma EmptyRecordOf(block: seq<LineKind>)
    ensures IsEmpty(RecordOf(block)) <==> forall i :: 0 <= i < |block| ==> block[i].Unmarked?
  {
    LastValuePresent(block, Name);
    LastValuePresent(block, Location);
    LastValuePresent(block, Cuisine);
    LastValuePresent(block, PriceRange);
    LastValuePresent(block, Note);
    if !forall i :: 0 <= i < |block| ==> block[i].Unmarked? {
      var i :| 0 <= i < |block| && block[i].Marked?;
      assert MarkedAs(block[i], block[i].marker);
    }
  }

  /** The index of the last `- Name:` line, or -1 when there is none. */
  function LastNameLine(ks: seq<LineKind>): (j: int)
    ensures -1 <= j < |ks|
    ensures j >= 0 ==> MarkedAs(ks[j], Name)
    ensures forall k :: j < k < |ks| ==> !MarkedAs(ks[k], Name)
  {
    if ks == [] then -1
    else if MarkedAs(ks[|ks| - 1], Name) then |ks| - 1
    else LastNameLine(ks[..|ks| - 1])
  }

  /**
    The records of a document: each `- Name:` line opens a block that runs to the next
    one and gives one record; the lines before the first `- Name:` line give a leading
    record only when they set some field.
   */
  function Records(ks: seq<LineKind>): seq<Place>
    decreases |ks|
  {
    var j := LastNameLine(ks);
    if j < 0 then (if IsEmpty(RecordOf(ks)) then [] else [RecordOf(ks)])
    else Records(ks[..j]) + [RecordOf(ks[j..])]
  }

  lemma RecordOfName(k: LineKind)
    requires MarkedAs(k, Name)
    ensures RecordOf([k]) == NoKeys.(name := Some(k.value))
  {
    assert [k][..0] == [];
    assert LastValue([k], Location) == LastValue([], Location) == None;
    assert LastValue([k], Cuisine) == LastValue([], Cuisine) == None;
    assert LastValue([k], PriceRange) == LastValue([], PriceRange) == None;
    assert LastValue([k], Note) == LastValue([], Note) == None;
  }

  lemma RecordOfSnoc(block: seq<LineKind>, k: LineKind)
    requires !MarkedAs(k, Name)
    ensures RecordOf(block + [k]) == match k
                                      case Unmarked => RecordOf(block)
                                      case Marked(m, v) => Set(RecordOf(block), m, v)
  {
    var b := block + [k];
    assert b[..|b| - 1] == block;
  }

  /** The scan's state, described by the blocks seen so far. */
  ghost predicate ScanDescribed(ks: seq<LineKind>)
  {
    var st := Scan(ks);
    var j := LastNameLine(ks);
    if j < 0 then st.done == [] && st.current == RecordOf(ks)
    else st.done == Records(ks[..j]) && st.current == RecordOf(ks[j..])
  }

  lemma FlushDescribed(ks: seq<LineKind>)
    requires ScanDescribed(ks)
    ensures Flush(Scan(ks)) == Records(ks)
  {
    var j := LastNameLine(ks);
    if j >= 0 {
      assert MarkedAs(ks[j..][0], Name);
      LastValuePresent(ks[j..], Name);
    }
  }

  lemma {:induction false} ScanIsDescribed(ks: seq<LineKind>)
    ensures ScanDescribed(ks)
  {
    if ks != [] {
      var p := ks[..|ks| - 1];
      var l := ks[|ks| - 1];
      assert ks == p + [l];
      ScanIsDescribed(p);
      var jp := LastNameLine(p);
      if MarkedAs(l, Name) {
        FlushDescribed(p);
        assert ks[..|p|] == p;
        assert ks[|p|..] == [l];
        RecordOfName(l);
      } else {
        assert LastNameLine(ks) == jp;
        RecordOfSnoc(if jp < 0 then p else p[jp..], l);
        if jp >= 0 {
          assert ks[..jp] == p[..jp];
          assert ks[jp..] == p[jp..] + [l];
        }
      }
    }
  }

  /** The scan that the source's loop performs yields exactly the block records. */
  lemma ScanIsRecords(ks: seq<LineKind>)
    ensures Flush(Scan(ks)) == Records(ks)
  {
    ScanIsDescribed(ks);
    FlushDescribed(ks);
  }

  // ---------------------------------------------------------------------------
  // Properties of the parser's result
  // ---------------------------------------------------------------------------

  /** The value of every `- Name:` line, in document order. */
  function NameValues(ks: seq<LineKind>): seq<string>
  {
    if ks == [] then []
    else NameValues(ks[..|ks| - 1])
         + (if MarkedAs(ks[|ks| - 1], Name) then [ks[|ks| - 1].value] else [])
  }

  /** The `name` entry of each record (`None` where the dictionary has no `name` key). */
  function Names(ps: seq<Place>): (r: seq<Option<string>>)
    ensures |r| == |ps| && forall i :: 0 <= i < |ps| ==> r[i] == ps[i].name
  {
    seq(|ps|, i requires 0 <= i < |ps| => ps[i].name)
  }

  function SomeEach(vs: seq<string>): (r: seq<Option<string>>)
    ensures |r| == |vs| && forall i :: 0 <= i < |vs| ==> r[i] == Some(vs[i])
  {
    seq(|vs|, i requires 0 <= i < |vs| => Some(vs[i]))
  }

  /** The index of the first `- Name:` line, or the number of lines when there is none. */
  function FirstNameLine(ks: seq<LineKind>): (f: nat)
    ensures f <= |ks|
    ensures f < |ks| ==> MarkedAs(ks[f], Name)
    ensures forall k :: 0 <= k < f ==> !MarkedAs(ks[k], Name)
  {
    if ks == [] then 0
    else if MarkedAs(ks[0], Name) then 0
    else 1 + FirstNameLine(ks[1..])
  }

  /** No line carrying a marker comes before the first `- Name:` line. */
  predicate FieldsFollowName(ks: seq<LineKind>)
  {
    forall i :: 0 <= i < FirstNameLine(ks) ==> ks[i].Unmarked?
  }

  lemma {:induction false} NoNameValues(ks: seq<LineKind>)
    requires forall k :: 0 <= k < |ks| ==> !MarkedAs(ks[k], Name)
    ensures NameValues(ks) == []
  {
    if ks != [] {
      NoNameValues(ks[..|ks| - 1]);
    }
  }

  lemma {:induction false} NameValuesUpToLast(ks: seq<LineKind>, j: nat)
    requires j < |ks| && MarkedAs(ks[j], Name)
    requires forall k :: j < k < |ks| ==> !MarkedAs(ks[k], Name)
    ensures NameValues(ks) == NameValues(ks[..j]) + [ks[j].value]
  {
    var p := ks[..|ks| - 1];
    if j < |ks| - 1 {
      assert p[..j] == ks[..j];
      NameValuesUpToLast(p, j);
    }
  }

  lemma FieldsFollowNameUpToLast(ks: seq<LineKind>, j: nat)
    requires j < |ks| && MarkedAs(ks[j], Name)
    ensures FieldsFollowName(ks) <==> FieldsFollowName(ks[..j])
  {
    var p := ks[..j];
    assert forall k :: 0 <= k < j ==> p[k] == ks[k];
    assert FirstNameLine(p) == FirstNameLine(ks);
  }

  /**
    One record per `- Name:` line, in document order and carrying that line's value,
    preceded by one record without a `name` key exactly when a field line comes before
    the first `- Name:` line.
   */
  lemma {:induction false} RecordNames(ks: seq<LineKind>)
    ensures Names(Records(ks)) == (if FieldsFollowName(ks) then [] else [None]) + SomeEach(NameValues(ks))
    decreases |ks|
  {
    var j := LastNameLine(ks);
    if j < 0 {
      RecordNamesWithoutName(ks);
    } else {
      RecordNames(ks[..j]);
      RecordNamesStep(ks, j);
    }
  }

  /** The case of a document without `- Name:` lines. */
  lemma RecordNamesWithoutName(ks: seq<LineKind>)
    requires LastNameLine(ks) < 0
    ensures Names(Records(ks)) == (if FieldsFollowName(ks) then [] else [None]) + SomeEach(NameValues(ks))
  {
    NoNameValues(ks);
    LastValuePresent(ks, Name);
    EmptyRecordOf(ks);
    assert FirstNameLine(ks) == |ks|;
  }

  /** The step from the lines before the last `- Name:` line to the whole document. */
  lemma RecordNamesStep(ks: seq<LineKind>, j: nat)
    requires j == LastNameLine(ks)
    requires var p := ks[..j];
             Names(Records(p)) == (if FieldsFollowName(p) then [] else [None]) + SomeEach(NameValues(p))
    ensures Names(Records(ks)) == (if FieldsFollowName(ks) then [] else [None]) + SomeEach(NameValues(ks))
  {
    var p := ks[..j];
    var b := ks[j..];
    forall k | 0 < k < |b| ensures !MarkedAs(b[k], Name) {
      assert b[k] == ks[j + k];
    }
    LastValueOfOpening(b, Name);
    NameValuesUpToLast(ks, j);
    FieldsFollowNameUpToLast(ks, j);
    assert Records(ks) == Records(p) + [RecordOf(b)];
    NamesAppend(Records(p), [RecordOf(b)]);
    SomeEachAppend(NameValues(p), [ks[j].value]);
  }

  lemma NamesAppend(a: seq<Place>, b: seq<Place>)
    ensures Names(a + b) == Names(a) + Names(b)
  {
  }

  lemma SomeEachAppend(a: seq<string>, b: seq<string>)
    ensures SomeEach(a + b) == SomeEach(a) + SomeEach(b)
  {
  }

  /**
    When every field line follows a `- Name:` line, the parser returns exactly one record
    per `- Name:` line, in document order, each named by its line.
   */
  lemma RecordCount(ks: seq<LineKind>)
    requires FieldsFollowName(ks)
    ensures |Records(ks)| == |NameValues(ks)|
    ensures forall i :: 0 <= i < |Records(ks)| ==> Records(ks)[i].name == Some(NameValues(ks)[i])
  {
    var rs := Records(ks);
    var vs := NameValues(ks);
    RecordNames(ks);
    assert Names(rs) == SomeEach(vs);
    forall i | 0 <= i < |rs| ensures rs[i].name == Some(vs[i]) {
      assert Names(rs)[i] == SomeEach(vs)[i];
    }
  }

  /** A field line before any `- Name:` line gives a leading record with no `name` key. */
  lemma LeadingRecordNameless(ks: seq<LineKind>)
    requires !FieldsFollowName(ks)
    ensures |Records(ks)| == |NameValues(ks)| + 1 && Records(ks)[0].name.None?
  {
    RecordNames(ks);
    assert Names(Records(ks))[0] == None;
  }

  /** Every record has a `name` key exactly when every field line follows a `- Name:` line. */
  lemma AllNamedIff(ks: seq<LineKind>)
    ensures (forall i :: 0 <= i < |Records(ks)| ==> Records(ks)[i].name.Some?) <==> FieldsFollowName(ks)
  {
    RecordNames(ks);
    if !FieldsFollowName(ks) {
      assert Names(Records(ks))[0] == None;
    } else {
      forall i | 0 <= i < |Records(ks)| ensures Records(ks)[i].name.Some? {
        assert Names(Records(ks))[i] == SomeEach(NameValues(ks))[i];
      }
    }
  }

  /** Records carry only the keys the parser sets: no `coordinates` and no `visited`. */
  lemma {:induction false} RecordsKeys(ks: seq<LineKind>)
    ensures forall r :: r in Records(ks) ==> Keys(r) <= ParsedKeys
    ensures forall r :: r in Records(ks) ==> r.coordinates.None? && r.visited.None?
    decreases |ks|
  {
    var j := LastNameLine(ks);
    if j >= 0 {
      RecordsKeys(ks[..j]);
    }
  }

  /** A line that carries no marker leaves the scan's state as it was. */
  lemma {:induction false} ScanSkipsUnmarked(a: seq<LineKind>, b: seq<LineKind>)
    ensures Scan(a + [Unmarked] + b) == Scan(a + b)
    decreases |b|
  {
    if b == [] {
      var x := a + [Unmarked];
      assert x[..|x| - 1] == a && x[|x| - 1] == Unmarked;
      assert a + [Unmarked] + b == x;
      assert a + b == a;
    } else {
      var b' := b[..|b| - 1];
      ScanSkipsUnmarked(a, b');
      var x := a + [Unmarked] + b;
      var y := a + b;
      assert x[..|x| - 1] == a + [Unmarked] + b';
      assert y[..|y| - 1] == a + b';
    }
  }

  /**
    Inserting a line that begins with none of the markers anywhere in a document
    does not change the parser's result.
   */
  lemma UnmarkedLineIgnored(before: seq<string>, line: string, after: seq<string>)
    requires Classify(line).Unmarked?
    ensures Records(Kinds(before + [line] + after)) == Records(Kinds(before + after))
  {
    var a := Kinds(before);
    var b := Kinds(after);
    KindsAppend(before + [line], after);
    KindsAppend(before, [line]);
    KindsAppend(before, after);
    assert Kinds([line]) == [Unmarked];
    ScanSkipsUnmarked(a, b);
    ScanIsRecords(a + [Unmarked] + b);
    ScanIsRecords(a + b);
  }

  lemma KindsAppend(x: seq<string>, y: seq<string>)
    ensures Kinds(x + y) == Kinds(x) + Kinds(y)
  {
  }
}
