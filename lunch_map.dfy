/**
  The `LocationData` object: the parsed places and lunch log it holds, the enrichment
  of the places and the map page built from them.
 */
module LunchMap {
  import opened Options
  import opened Strings
  import opened Places
  import opened LunchLog
  import opened Geocoding

  /** The placeholder of the page template that receives the serialised places. */
  const Placeholder: string := "{locations_data}"

  class LocationData {
    /** `self.places`: one dictionary per place of `places.md`. */
    var places: seq<Place>
    /** `self.lunch_log`: one dictionary per visit of `lunch_log.md`. */
    var lunchLog: seq<VisitEntry>

    /** `LocationData()`: no places and no visits yet. */
    constructor ()
      ensures places == [] && lunchLog == []
    {
      places := [];
      lunchLog := [];
    }

    /**
      `geocode_all_locations`, with the geocoder as `lookup`.  `requests` are the queries
      it sends, in order.  When some place has no `name` key, `place['name']` raises
      `KeyError` on it: `ok` is false, the places before it are enriched and it and the
      ones after it are as they were.  Otherwise every place is enriched and then
      gets its `visited` flag.
     */
    method GeocodeAllLocations(lookup: string -> Option<Coord>) returns (requests: seq<string>, ok: bool)
      modifies this
      ensures lunchLog == old(lunchLog)
      ensures ok <==> Named(old(places))
      ensures ok ==> requests == RequestsAll(old(places))
                     && places == MarkVisited(LocateAll(old(places), lookup), VisitedNames(lunchLog))
      ensures !ok ==> exists k :: 0 <= k < |old(places)| && old(places)[k].name.None?
                                  && Named(old(places)[..k])
                                  && places == LocateAll(old(places)[..k], lookup) + old(places)[k..]
                                  && requests == RequestsAll(old(places)[..k])
    {
      var located, sent, k := LocateEach(places, lookup);
      requests := sent;
      if k < |places| {
        places := located;
        return sent, false;
      }
      assert places[..k] == places && places[k..] == [];
      assert located == LocateAll(places, lookup);
      places := MarkEach(located, VisitedNames(lunchLog));
      ok := true;
    }

    /**
      The map page: `html_template.replace('{locations_data}', locations_data)`, where
      `locations_data` is `serialize` (`json.dumps`) of the places that have coordinates.
      A template with one placeholder gets the payload in its place and is otherwise
      kept; one without a placeholder is returned unchanged.
     */
    function GenerateMapHtml(template: string, serialize: seq<Place> -> string): (html: string)
      reads this
      ensures forall k :: OccursAt(template, Placeholder, k)
                          && (forall j :: 0 <= j && j != k ==> !OccursAt(template, Placeholder, j))
                          ==> html == template[..k] + serialize(Payload(places)) + template[k + |Placeholder|..]
      ensures (forall j :: 0 <= j ==> !OccursAt(template, Placeholder, j)) ==> html == template
    {
      var locationsData := serialize(Payload(places));
      var r := ReplaceAll(template, Placeholder, locationsData);
      assert forall k :: OccursAt(template, Placeholder, k)
                         && (forall j :: 0 <= j && j != k ==> !OccursAt(template, Placeholder, j))
                         ==> r == template[..k] + locationsData + template[k + |Placeholder|..] by {
        forall k | OccursAt(template, Placeholder, k)
                   && (forall j :: 0 <= j && j != k ==> !OccursAt(template, Placeholder, j))
          ensures r == template[..k] + locationsData + template[k + |Placeholder|..]
        {
          ReplaceSingle(template, Placeholder, locationsData, k);
        }
      }
      assert (forall j :: 0 <= j ==> !OccursAt(template, Placeholder, j)) ==> r == template by {
        if forall j :: 0 <= j ==> !OccursAt(template, Placeholder, j) {
          ReplaceAbsent(template, Placeholder, locationsData);
        }
      }
      r
    }
  }

  /**
    The first loop of `geocode_all_locations` (lunch_map.py:134-143) on the list of
    places.  It stops at index `k`, the first place without a `name` key, or at the end
    of the list; the places before `k` are enriched, the others are as they were, and
    `requests` are the queries sent for the places before `k`.
   */
  method LocateEach(ps: seq<Place>, lookup: string -> Option<Coord>)
    returns (located: seq<Place>, requests: seq<string>, k: nat)
    ensures k <= |ps| && Named(ps[..k]) && (k < |ps| ==> ps[k].name.None?)
    ensures located == LocateAll(ps[..k], lookup) + ps[k..]
    ensures requests == RequestsAll(ps[..k])
  {
    var antwerpCoords := PredefinedCoords;
    located := ps;
    requests := [];
    k := 0;
    while k < |located|
      invariant 0 <= k <= |located| == |ps|
      invariant Named(ps[..k])
      invariant located == LocateAll(ps[..k], lookup) + ps[k..]
      invariant requests == RequestsAll(ps[..k])
    {
      ghost var done := LocateAll(ps[..k], lookup);
      var place := located[k];
      assert place == ps[k];
      if place.name.None? {
        return;
      }
      if place.name.value in antwerpCoords {
        place := place.(coordinates := Some(antwerpCoords[place.name.value]));
      } else if place.address.Some? {
        var query := Query(place.address.value);
        requests := requests + [query];
        var coords := lookup(query);
        if coords.Some? {
          place := place.(coordinates := coords);
        }
      }
      assert place == LocatePlace(ps[k], lookup);
      LocateAllSnoc(ps[..k], ps[k], lookup);
      PrefixSnoc(ps, k);
      UpdateAt(done, ps[k..], place);
      assert ps[k..][1..] == ps[k + 1..];
      located := located[k := place];
      k := k + 1;
    }
  }

  /** The second loop of `geocode_all_locations` (lunch_map.py:146-148). */
  method MarkEach(ps: seq<Place>, visitedNames: set<string>) returns (marked: seq<Place>)
    requires Named(ps)
    ensures marked == MarkVisited(ps, visitedNames)
  {
    marked := ps;
    var i := 0;
    while i < |marked|
      invariant 0 <= i <= |marked| == |ps|
      invariant Named(ps[..i])
      invariant marked == MarkVisited(ps[..i], visitedNames) + ps[i..]
    {
      ghost var done := MarkVisited(ps[..i], visitedNames);
      var place := marked[i];
      assert place == ps[i];
      MarkVisitedSnoc(ps[..i], place, visitedNames);
      PrefixSnoc(ps, i);
      var flagged := place.(visited := Some(place.name.value in visitedNames));
      UpdateAt(done, ps[i..], flagged);
      assert ps[i..][1..] == ps[i + 1..];
      marked := marked[i := flagged];
      i := i + 1;
    }
    assert ps[..i] == ps;
  }

  /** A prefix one element longer. */
  lemma PrefixSnoc<T>(s: seq<T>, i: nat)
    requires i < |s|
    ensures s[..i + 1] == s[..i] + [s[i]]
  {
  }

  /** Overwriting the first element after a prefix. */
  lemma UpdateAt<T>(a: seq<T>, b: seq<T>, x: T)
    requires |b| > 0
    ensures (a + b)[|a| := x] == a + [x] + b[1..]
  {
  }

  /**
    The whole pipeline on a document whose field lines all follow a `- Name:` line:
    enrichment succeeds, and the payload holds exactly the enriched places that got
    coordinates, each with its `visited` flag.
   */
  lemma PipelinePayload(content: string, log: seq<VisitEntry>, lookup: string -> Option<Coord>)
    requires FieldsFollowName(Kinds(SplitLines(content)))
    ensures Named(Records(Kinds(SplitLines(content))))
    ensures var ps := Records(Kinds(SplitLines(content)));
            var located := LocateAll(ps, lookup);
            Named(Payload(located))
            && Payload(MarkVisited(located, VisitedNames(log)))
               == MarkVisited(Payload(located), VisitedNames(log))
            && forall i :: 0 <= i < |ps| ==>
                 (located[i] in Payload(located)
                  <==> ps[i].name.value in PredefinedCoords
                       || (ps[i].address.Some? && lookup(Query(ps[i].address.value)).Some?))
  {
    var ks := Kinds(SplitLines(content));
    var ps := Records(ks);
    AllNamedIff(ks);
    RecordsKeys(ks);
    var located := LocateAll(ps, lookup);
    PayloadMarkVisited(located, VisitedNames(log));
    PayloadMembers(located);
    forall i | 0 <= i < |ps|
      ensures located[i] in Payload(located)
              <==> ps[i].name.value in PredefinedCoords
                   || (ps[i].address.Some? && lookup(Query(ps[i].address.value)).Some?)
    {
      assert ps[i] in ps;
      LocatedIff(ps[i], lookup);
    }
  }
}
