/**
  Enrichment of the parsed places (`LocationData.geocode_all_locations`) and the
  selection of the places handed to the map page (`generate_map_html`).

  The geocoder (`geocode_address`: an HTTP request to Nominatim and the decoding of
  its answer) is a parameter `lookup` that maps the query text it is sent to the
  coordinates it yields, `None` standing for an empty answer or any failure.
 */
module Geocoding {
  import opened Options
  import opened Strings
  import opened Places
  import opened LunchLog

  // ---------------------------------------------------------------------------
  // The query text
  // ---------------------------------------------------------------------------

  /** What `geocode_address` appends to an address that names neither city nor country. */
  const Suffix: string := ", Antwerpen, Belgium"

  /** The `q` parameter `geocode_address` sends for `address`. */
  function Query(address: string): string
  {
    if !Contains(address, "Antwerpen") && !Contains(address, "Belgium") then address + Suffix
    else address
  }

  /** The suffix names both the city and the country. */
  lemma SuffixNamesCity(address: string)
    ensures Contains(address + Suffix, "Antwerpen") && Contains(address + Suffix, "Belgium")
  {
    var q := address + Suffix;
    var n := |address|;
    assert q[n + 2..n + 11] == "Antwerpen";
    assert OccursAt(q, "Antwerpen", n + 2);
    assert q[n + 13..n + 20] == "Belgium";
    assert OccursAt(q, "Belgium", n + 13);
  }

  /**
    The query begins with the address and names the city or the country; it is the
    address itself exactly when the address already names one of them, so qualifying a
    query again changes nothing.
   */
  lemma QuerySpec(address: string)
    ensures StartsWith(Query(address), address)
    ensures Contains(Query(address), "Antwerpen") || Contains(Query(address), "Belgium")
    ensures Query(address) == address
            <==> Contains(address, "Antwerpen") || Contains(address, "Belgium")
    ensures Query(Query(address)) == Query(address)
  {
    SuffixNamesCity(address);
    assert (address + Suffix)[..|address|] == address;
  }

  // ---------------------------------------------------------------------------
  // The predefined coordinates
  // ---------------------------------------------------------------------------

  /** `antwerp_coords`: coordinates for known places, looked up by their name. */
  const PredefinedCoords: map<string, Coord> := map[
    "Munji" := Coord(51.2214, 4.4010),
    "Tjoung Tjoung" := Coord(51.2170, 4.4210),
    "Koffie Dealers" := Coord(51.2180, 4.4010),
    "Phiin C\U{E0} Ph\U{EA}" := Coord(51.2190, 4.4000),
    "Arepa culture Antwerpen \U{1F1FB}\U{1F1EA}" := Coord(51.2150, 4.4050),
    "Afghan Darbar Restaurant" := Coord(51.2100, 4.4200),
    "Ovanos" := Coord(51.2080, 4.4250)]

  // ---------------------------------------------------------------------------
  // Enrichment of one place and of the list
  // ---------------------------------------------------------------------------

  /** Every place has a `name` key, so that `place['name']` raises no `KeyError`. */
  predicate Named(ps: seq<Place>)
  {
    forall i :: 0 <= i < |ps| ==> ps[i].name.Some?
  }

  /**
    One turn of the first loop of `geocode_all_locations`: table coordinates for a
    known name, otherwise the geocoder's answer for the address when it has one.
   */
  function LocatePlace(p: Place, lookup: string -> Option<Coord>): (r: Place)
    requires p.name.Some?
    ensures r.name == p.name && r.address == p.address && r.cuisine == p.cuisine
            && r.priceRange == p.priceRange && r.note == p.note && r.visited == p.visited
    ensures p.name.value in PredefinedCoords ==> r.coordinates == Some(PredefinedCoords[p.name.value])
    ensures p.name.value !in PredefinedCoords && p.address.None? ==> r == p
    ensures p.name.value !in PredefinedCoords && p.address.Some? ==>
              (lookup(Query(p.address.value)).Some? ==> r.coordinates == lookup(Query(p.address.value)))
              && (lookup(Query(p.address.value)).None? ==> r == p)
    ensures r.coordinates.None? ==> p.coordinates.None?
  {
    if p.name.value in PredefinedCoords then p.(coordinates := Some(PredefinedCoords[p.name.value]))
    else if p.address.Some? then
      match lookup(Query(p.address.value))
      case Some(c) => p.(coordinates := Some(c))
      case None => p
    else p
  }

  /** The queries one turn sends to the geocoder. */
  function RequestsOf(p: Place): seq<string>
    requires p.name.Some?
  {
    if p.name.value in PredefinedCoords then []
    else if p.address.Some? then [Query(p.address.value)]
    else []
  }

  /** The first loop over the whole list. */
  function LocateAll(ps: seq<Place>, lookup: string -> Option<Coord>): seq<Place>
    requires Named(ps)
  {
    seq(|ps|, i requires 0 <= i < |ps| && ps[i].name.Some? => LocatePlace(ps[i], lookup))
  }

  /** The queries the first loop sends, in order. */
  function RequestsAll(ps: seq<Place>): seq<string>
    requires Named(ps)
    decreases |ps|
  {
    if ps == [] then [] else RequestsAll(ps[..|ps| - 1]) + RequestsOf(ps[|ps| - 1])
  }

  /** Locating a list one more place long locates that place after the others. */
  lemma LocateAllSnoc(ps: seq<Place>, p: Place, lookup: string -> Option<Coord>)
    requires Named(ps) && p.name.Some?
    ensures Named(ps + [p])
    ensures LocateAll(ps + [p], lookup) == LocateAll(ps, lookup) + [LocatePlace(p, lookup)]
  {
    assert forall i :: 0 <= i < |ps| ==> (ps + [p])[i] == ps[i];
  }

  /**
    Enrichment keeps the order and the number of places, their names and every key
    other than `coordinates`.
   */
  lemma LocateAllKeeps(ps: seq<Place>, lookup: string -> Option<Coord>)
    requires Named(ps)
    ensures |LocateAll(ps, lookup)| == |ps| && Names(LocateAll(ps, lookup)) == Names(ps)
    ensures forall i :: 0 <= i < |ps| ==>
              LocateAll(ps, lookup)[i] == ps[i].(coordinates := LocateAll(ps, lookup)[i].coordinates)
  {
  }

  /** Every query of one place is among the queries of a list holding it. */
  lemma {:induction false} RequestsContain(ps: seq<Place>, i: nat)
    requires Named(ps) && i < |ps|
    ensures forall q :: q in RequestsOf(ps[i]) ==> q in RequestsAll(ps)
    decreases |ps|
  {
    var init := ps[..|ps| - 1];
    if i < |ps| - 1 {
      assert init[i] == ps[i];
      RequestsContain(init, i);
    }
  }

  /**
    The result depends on the geocoder only through the queries sent: a place with a
    predefined name, or without an address, is located without consulting it.
   */
  lemma LookupOnlyForRequests(ps: seq<Place>, f: string -> Option<Coord>, g: string -> Option<Coord>)
    requires Named(ps)
    requires forall q :: q in RequestsAll(ps) ==> f(q) == g(q)
    ensures LocateAll(ps, f) == LocateAll(ps, g)
  {
    forall i | 0 <= i < |ps| ensures LocatePlace(ps[i], f) == LocatePlace(ps[i], g) {
      RequestsContain(ps, i);
    }
  }

  /**
    One query per place that has an address and a name outside the table, in the
    order of the places; there is no cache, so two such places with the same address
    send the same query twice.
   */
  lemma RequestsCount(ps: seq<Place>)
    requires Named(ps)
    ensures |RequestsAll(ps)| == |Geocoded(ps)|
    ensures forall j :: 0 <= j < |Geocoded(ps)| ==>
              RequestsAll(ps)[j] == Query(ps[Geocoded(ps)[j]].address.value)
    ensures forall i :: 0 <= i < |ps| ==>
              (i in Geocoded(ps) <==> ps[i].name.value !in PredefinedCoords && ps[i].address.Some?)
    ensures forall j, k :: 0 <= j < k < |Geocoded(ps)| ==> Geocoded(ps)[j] < Geocoded(ps)[k]
  {
    RequestsInOrder(ps);
    GeocodedExact(ps);
    GeocodedIncreasing(ps);
  }

  /** The `j`-th query is the query of the `j`-th listed place. */
  lemma {:induction false} RequestsInOrder(ps: seq<Place>)
    requires Named(ps)
    ensures |RequestsAll(ps)| == |Geocoded(ps)|
    ensures forall j :: 0 <= j < |Geocoded(ps)| ==>
              RequestsAll(ps)[j] == Query(ps[Geocoded(ps)[j]].address.value)
    decreases |ps|
  {
    if ps != [] {
      var init := ps[..|ps| - 1];
      RequestsInOrder(init);
      assert forall j :: 0 <= j < |init| ==> init[j] == ps[j];
    }
  }

  /** The indices of the places the first loop sends to the geocoder, in order. */
  function Geocoded(ps: seq<Place>): (r: seq<nat>)
    requires Named(ps)
    ensures forall j :: 0 <= j < |r| ==>
              r[j] < |ps| && ps[r[j]].name.value !in PredefinedCoords && ps[r[j]].address.Some?
    decreases |ps|
  {
    if ps == [] then []
    else
      var n := |ps| - 1;
      Geocoded(ps[..n]) + (if ps[n].name.value !in PredefinedCoords && ps[n].address.Some? then [n] else [])
  }

  /**
    An index is listed exactly when its place is sent to the geocoder: its name is not
    in the table and it has an address.
   */
  lemma {:induction false} GeocodedExact(ps: seq<Place>)
    requires Named(ps)
    ensures forall i :: 0 <= i < |ps| ==>
              (i in Geocoded(ps) <==> ps[i].name.value !in PredefinedCoords && ps[i].address.Some?)
    decreases |ps|
  {
    if ps != [] {
      var n := |ps| - 1;
      var init := ps[..n];
      GeocodedExact(init);
      assert forall i :: 0 <= i < n ==> init[i] == ps[i];
    }
  }

  /** The listed indices are strictly increasing: each place is sent once, in list order. */
  lemma {:induction false} GeocodedIncreasing(ps: seq<Place>)
    requires Named(ps)
    ensures forall j, k :: 0 <= j < k < |Geocoded(ps)| ==> Geocoded(ps)[j] < Geocoded(ps)[k]
    decreases |ps|
  {
    if ps != [] {
      GeocodedIncreasing(ps[..|ps| - 1]);
    }
  }

  /** Two places that are not in the table and share an address cause two identical queries. */
  lemma SameAddressTwice(p: Place, q: Place)
    requires p.name.Some? && q.name.Some?
    requires p.name.value !in PredefinedCoords && q.name.value !in PredefinedCoords
    requires p.address.Some? && p.address == q.address
    ensures RequestsAll([p, q]) == [Query(p.address.value), Query(p.address.value)]
  {
    var ps := [p, q];
    assert ps[..1] == [p];
    assert ps[..1][..0] == [];
    assert RequestsAll(ps[..1]) == [Query(p.address.value)];
  }

  /** Enriching twice with the same geocoder gives what enriching once gives. */
  lemma LocateAllIdempotent(ps: seq<Place>, lookup: string -> Option<Coord>)
    requires Named(ps)
    ensures Named(LocateAll(ps, lookup))
    ensures LocateAll(LocateAll(ps, lookup), lookup) == LocateAll(ps, lookup)
  {
    var ls := LocateAll(ps, lookup);
    assert Named(ls);
    forall i | 0 <= i < |ps| ensures LocatePlace(ls[i], lookup) == ls[i] {
      var p := ps[i];
      if p.name.value !in PredefinedCoords && p.address.Some? {
        var c := lookup(Query(p.address.value));
        assert ls[i] == if c.Some? then p.(coordinates := c) else p;
      }
    }
  }

  /**
    A place that has no coordinates yet ends up with coordinates exactly when its name
    is in the table, or it has an address for which the geocoder answers.
   */
  lemma LocatedIff(p: Place, lookup: string -> Option<Coord>)
    requires p.name.Some? && p.coordinates.None?
    ensures LocatePlace(p, lookup).coordinates.Some?
            <==> p.name.value in PredefinedCoords
                 || (p.address.Some? && lookup(Query(p.address.value)).Some?)
  {
  }

  // ---------------------------------------------------------------------------
  // The visited flag
  // ---------------------------------------------------------------------------

  /** `visited_names`: the names of the lunch log entries. */
  function VisitedNames(log: seq<VisitEntry>): set<string>
  {
    set e | e in log :: e.name
  }

  /** The second loop of `geocode_all_locations`. */
  function MarkVisited(ps: seq<Place>, names: set<string>): seq<Place>
    requires Named(ps)
  {
    seq(|ps|, i requires 0 <= i < |ps| && ps[i].name.Some? =>
                ps[i].(visited := Some(ps[i].name.value in names)))
  }

  /** Marking a list one more place long marks that place after the others. */
  lemma MarkVisitedSnoc(ps: seq<Place>, p: Place, names: set<string>)
    requires Named(ps) && p.name.Some?
    ensures Named(ps + [p])
    ensures MarkVisited(ps + [p], names)
            == MarkVisited(ps, names) + [p.(visited := Some(p.name.value in names))]
  {
    assert forall i :: 0 <= i < |ps| ==> (ps + [p])[i] == ps[i];
  }

  /**
    Every place gets a `visited` key, true exactly when some lunch log entry has its
    name; nothing else about the places changes.
   */
  lemma MarkVisitedSpec(ps: seq<Place>, log: seq<VisitEntry>)
    requires Named(ps)
    ensures var ms := MarkVisited(ps, VisitedNames(log));
            |ms| == |ps|
            && forall i :: 0 <= i < |ps| ==>
                 ms[i].visited.Some?
                 && (ms[i].visited.value <==> exists k :: 0 <= k < |log| && log[k].name == ps[i].name.value)
                 && ms[i] == ps[i].(visited := ms[i].visited)
  {
    var ms := MarkVisited(ps, VisitedNames(log));
    forall i | 0 <= i < |ps|
      ensures ms[i].visited.value <==> exists k :: 0 <= k < |log| && log[k].name == ps[i].name.value
    {
      var n := ps[i].name.value;
      if n in VisitedNames(log) {
        var e :| e in log && e.name == n;
        var k :| 0 <= k < |log| && log[k] == e;
      }
    }
  }

  // ---------------------------------------------------------------------------
  // The payload of the map page
  // ---------------------------------------------------------------------------

  /** `[place for place in self.places if 'coordinates' in place]`. */
  function Payload(ps: seq<Place>): seq<Place>
    decreases |ps|
  {
    if ps == [] then []
    else
      var n := |ps| - 1;
      Payload(ps[..n]) + (if ps[n].coordinates.Some? then [ps[n]] else [])
  }

  /** The indices of the places that have coordinates, in order. */
  function CoordIndices(ps: seq<Place>): seq<nat>
    decreases |ps|
  {
    if ps == [] then []
    else
      var n := |ps| - 1;
      CoordIndices(ps[..n]) + (if ps[n].coordinates.Some? then [n] else [])
  }

  /**
    The payload is the subsequence of places with coordinates: it holds, in order,
    the places at strictly increasing indices, and an index is among them exactly when
    its place has coordinates.
   */
  lemma PayloadIndices(ps: seq<Place>)
    ensures var idx := CoordIndices(ps);
            |idx| == |Payload(ps)|
            && (forall j :: 0 <= j < |idx| ==> idx[j] < |ps| && Payload(ps)[j] == ps[idx[j]])
            && (forall j, k :: 0 <= j < k < |idx| ==> idx[j] < idx[k])
            && (forall i :: 0 <= i < |ps| ==> (ps[i].coordinates.Some? <==> i in idx))
  {
    CoordIndicesBounded(ps);
    CoordIndicesIncreasing(ps);
    CoordIndicesExact(ps);
    PayloadAt(ps);
  }

  lemma {:induction false} CoordIndicesBounded(ps: seq<Place>)
    ensures forall j :: 0 <= j < |CoordIndices(ps)| ==> CoordIndices(ps)[j] < |ps|
    decreases |ps|
  {
    if ps != [] {
      CoordIndicesBounded(ps[..|ps| - 1]);
    }
  }

  lemma {:induction false} CoordIndicesIncreasing(ps: seq<Place>)
    ensures forall j, k :: 0 <= j < k < |CoordIndices(ps)| ==> CoordIndices(ps)[j] < CoordIndices(ps)[k]
    decreases |ps|
  {
    if ps != [] {
      var init := ps[..|ps| - 1];
      CoordIndicesIncreasing(init);
      CoordIndicesBounded(init);
    }
  }

  lemma {:induction false} CoordIndicesExact(ps: seq<Place>)
    ensures forall i :: 0 <= i < |ps| ==> (ps[i].coordinates.Some? <==> i in CoordIndices(ps))
    decreases |ps|
  {
    if ps != [] {
      var n := |ps| - 1;
      var init := ps[..n];
      CoordIndicesExact(init);
      CoordIndicesBounded(init);
      assert forall i :: 0 <= i < n ==> init[i] == ps[i];
    }
  }

  lemma {:induction false} PayloadAt(ps: seq<Place>)
    ensures |CoordIndices(ps)| == |Payload(ps)|
    ensures forall j :: 0 <= j < |CoordIndices(ps)| ==>
              CoordIndices(ps)[j] < |ps| && Payload(ps)[j] == ps[CoordIndices(ps)[j]]
    decreases |ps|
  {
    CoordIndicesBounded(ps);
    if ps != [] {
      var n := |ps| - 1;
      var init := ps[..n];
      PayloadAt(init);
      CoordIndicesBounded(init);
      assert forall j :: 0 <= j < |CoordIndices(init)| ==> init[CoordIndices(init)[j]] == ps[CoordIndices(init)[j]];
    }
  }

  /** Selecting from a concatenation concatenates the selections. */
  lemma {:induction false} PayloadAppend(a: seq<Place>, b: seq<Place>)
    ensures Payload(a + b) == Payload(a) + Payload(b)
    decreases |b|
  {
    if b == [] {
      assert a + b == a;
    } else {
      var n := |b| - 1;
      assert (a + b)[..|a + b| - 1] == a + b[..n];
      assert (a + b)[|a + b| - 1] == b[n];
      PayloadAppend(a, b[..n]);
    }
  }

  /**
    Exactly the places with coordinates are in the payload; it is never longer than
    the list, and it is the whole list exactly when every place has coordinates.
   */
  lemma {:induction false} PayloadMembers(ps: seq<Place>)
    ensures forall p :: p in Payload(ps) <==> p in ps && p.coordinates.Some?
    ensures |Payload(ps)| <= |ps|
    ensures Payload(ps) == ps <==> forall i :: 0 <= i < |ps| ==> ps[i].coordinates.Some?
    decreases |ps|
  {
    if ps != [] {
      var n := |ps| - 1;
      var init := ps[..n];
      PayloadMembers(init);
      assert ps == init + [ps[n]];
      if Payload(ps) == ps {
        assert |Payload(init)| == n == |init|;
        assert Payload(init) == init;
      }
    }
  }

  /** Selecting twice selects the same places as selecting once. */
  lemma PayloadIdempotent(ps: seq<Place>)
    ensures Payload(Payload(ps)) == Payload(ps)
  {
    var pl := Payload(ps);
    PayloadMembers(ps);
    PayloadMembers(pl);
    forall i | 0 <= i < |pl| ensures pl[i].coordinates.Some? {
      assert pl[i] in pl;
    }
  }

  /** Marking visits does not change which places reach the payload. */
  lemma {:induction false} PayloadMarkVisited(ps: seq<Place>, names: set<string>)
    requires Named(ps)
    ensures Named(Payload(ps))
    ensures Payload(MarkVisited(ps, names)) == MarkVisited(Payload(ps), names)
    decreases |ps|
  {
    if ps != [] {
      var n := |ps| - 1;
      var init := ps[..n];
      assert forall i :: 0 <= i < n ==> init[i] == ps[i];
      PayloadMarkVisited(init, names);
      var ms := MarkVisited(ps, names);
      assert ms[..n] == MarkVisited(init, names);
      if ps[n].coordinates.Some? {
        MarkVisitedSnoc(Payload(init), ps[n], names);
      }
    }
  }

  /**
    A parsed place with neither a predefined name nor an address never reaches the
    payload; one with a predefined name always does.
   */
  lemma PayloadAfterEnrichment(ps: seq<Place>, lookup: string -> Option<Coord>, i: nat)
    requires Named(ps) && i < |ps| && ps[i].coordinates.None?
    ensures ps[i].name.value !in PredefinedCoords && ps[i].address.None?
            ==> LocateAll(ps, lookup)[i] !in Payload(LocateAll(ps, lookup))
    ensures ps[i].name.value in PredefinedCoords
            ==> LocateAll(ps, lookup)[i] in Payload(LocateAll(ps, lookup))
  {
    PayloadMembers(LocateAll(ps, lookup));
  }
}
