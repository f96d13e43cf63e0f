/** The heat map's data: vacancies counted per province or per
    (province, district) pair, joined with coordinates, places without a
    coordinate dropped; the district view falls back to the province view
    when there is no district coordinate table. */
module Geo {
  import opened Wrappers
  import opened Tables
  import opened Counting

  /** A latitude and longitude; the model carries them and never computes
      with them. */
  datatype Coord = Coord(lat: real, lon: real)

  /** One point of the heat map: a place, its number of vacancies, and
      where it lies. */
  datatype Located<K> = Located(key: K, count: nat, coord: Coord)

  /** The map's level of detail, the "Provincia"/"Distrito" radio. */
  datatype Granularity = Provincia | Distrito

  /** A (province, district) pair, the key of the district view. */
  type Place = (string, string)

  /** What the heat map draws. The variant is the mode the rest of the
      map block sees, which picks the point radius and the hover column. */
  datatype MapData = ProvinceMap(provinces: seq<Located<string>>) | DistrictMap(districts: seq<Located<Place>>) {
    function Mode(): Granularity {
      if ProvinceMap? then Provincia else Distrito
    }

    /** No point to draw: the dashboard shows "no data", not an error. */
    predicate IsEmpty() {
      if ProvinceMap? then |provinces| == 0 else |districts| == 0
    }
  }

  ghost predicate HasKey<K>(r: seq<Located<K>>, k: K) {
    exists i :: 0 <= i < |r| && r[i].key == k
  }

  ghost predicate DistinctKeys<K>(r: seq<Located<K>>) {
    forall i, j :: 0 <= i < j < |r| ==> r[i].key != r[j].key
  }

  /** Sum of the point counts. */
  function Total<K>(r: seq<Located<K>>): nat {
    if |r| == 0 then 0 else r[0].count + Total(r[1..])
  }

  /** A left join of counted places with their coordinates followed by
      dropping the rows without a latitude: exactly the lines whose place
      has a coordinate stay, each with that coordinate. */
  function Join<K>(es: seq<Entry<K>>, coords: map<K, Coord>): (r: seq<Located<K>>)
    ensures |r| <= |es|
  {
    if |es| == 0 then []
    else
      var rest := Join(es[1..], coords);
      assert es == [es[0]] + es[1..];
      if es[0].value in coords then [Located(es[0].value, es[0].count, coords[es[0].value])] + rest
      else rest
  }

  /** Exactly the lines whose place has a coordinate survive the join,
      each paired with that coordinate. */
  lemma {:induction false} JoinMembers<K(!new)>(es: seq<Entry<K>>, coords: map<K, Coord>)
    ensures var r := Join(es, coords);
            forall p :: p in r <==> p.key in coords && p.coord == coords[p.key] && Entry(p.key, p.count) in es
    decreases |es|
  {
    if |es| > 0 {
      JoinMembers(es[1..], coords);
      assert es == [es[0]] + es[1..];
    }
  }

  /** The points add up to the lines whose place has a coordinate. */
  lemma {:induction false} JoinTotal<K(!new)>(es: seq<Entry<K>>, coords: map<K, Coord>)
    ensures Total(Join(es, coords)) == SumIn(es, coords.Keys)
    decreases |es|
  {
    if |es| > 0 {
      JoinTotal(es[1..], coords);
      var r := Join(es, coords);
      if es[0].value in coords {
        assert r[1..] == Join(es[1..], coords);
      }
    }
  }

  /** Distinct places stay distinct through the join. */
  lemma {:induction false} JoinDistinct<K(!new)>(es: seq<Entry<K>>, coords: map<K, Coord>)
    requires DistinctValues(es)
    ensures DistinctKeys(Join(es, coords))
    decreases |es|
  {
    if |es| > 0 {
      var rest := Join(es[1..], coords);
      JoinDistinct(es[1..], coords);
      JoinMembers(es[1..], coords);
      if es[0].value in coords {
        var r := [Located(es[0].value, es[0].count, coords[es[0].value])] + rest;
        assert Join(es, coords) == r;
        forall i | 0 <= i < |rest| ensures rest[i].key != es[0].value {
          assert rest[i] in rest;
          assert Entry(rest[i].key, rest[i].count) in es[1..];
        }
      }
    }
  }

  /** Non-increasing counts stay non-increasing through the join. */
  lemma {:induction false} JoinNonIncreasing<K(!new)>(es: seq<Entry<K>>, coords: map<K, Coord>)
    requires forall i, j :: 0 <= i < j < |es| ==> es[i].count >= es[j].count
    ensures NonIncreasing(Join(es, coords))
    decreases |es|
  {
    if |es| > 0 {
      var rest := Join(es[1..], coords);
      JoinNonIncreasing(es[1..], coords);
      JoinMembers(es[1..], coords);
      if es[0].value in coords {
        var r := [Located(es[0].value, es[0].count, coords[es[0].value])] + rest;
        assert Join(es, coords) == r;
        forall i | 0 <= i < |rest| ensures rest[i].count <= es[0].count {
          assert rest[i] in rest;
          assert Entry(rest[i].key, rest[i].count) in es[1..];
        }
      }
    }
  }

  ghost predicate NonIncreasing<K>(r: seq<Located<K>>) {
    forall i, j :: 0 <= i < j < |r| ==> r[i].count >= r[j].count
  }

  /** The province view (`value_counts` of `PROVINCIA`, then the look-up in
      the province dictionary): one point per province of the view that the
      dictionary knows, with the number of rows of that province; the points
      add up to the number of rows whose province the dictionary knows. */
  function ProvincePoints(view: seq<Row>, coords: map<string, Coord>): (r: seq<Located<string>>)
    requires HasColumn(view, PROVINCIA)
    ensures DistinctKeys(r)
    ensures forall i :: 0 <= i < |r| ==>
              r[i].key in coords && r[i].coord == coords[r[i].key] &&
              r[i].count == Tally(view, PROVINCIA, r[i].key) && r[i].count >= 1
    ensures forall v :: HasKey(r, v) <==> v in coords && Occurs(view, PROVINCIA, v)
    ensures NonIncreasing(r)
    ensures Total(r) == CountIn(ColumnValues(view, PROVINCIA), coords.Keys)
  {
    var vs := ColumnValues(view, PROVINCIA);
    var counts := SortedCounts(vs);
    SortedCountsSum(vs, coords.Keys);
    var r := Join(counts, coords);
    JoinMembers(counts, coords);
    JoinTotal(counts, coords);
    JoinDistinct(counts, coords);
    JoinNonIncreasing(counts, coords);
    JoinedKeys(vs, counts, coords, r);
    OccursInColumn(view, PROVINCIA);
    forall v ensures Tally(view, PROVINCIA, v) == multiset(vs)[v] {
      TallyIsMultiplicity(view, PROVINCIA, v);
    }
    r
  }

  /** The lines of a complete count table that survive the join are the
      places with a coordinate, each with its exact count. */
  lemma JoinedKeys<K(!new)>(vs: seq<K>, counts: seq<Entry<K>>, coords: map<K, Coord>, r: seq<Located<K>>)
    requires forall i :: 0 <= i < |counts| ==> counts[i].value in vs && counts[i].count == multiset(vs)[counts[i].value]
    requires forall v :: v in vs ==> Entry(v, multiset(vs)[v]) in counts
    requires forall p :: p in r <==> p.key in coords && p.coord == coords[p.key] && Entry(p.key, p.count) in counts
    ensures forall i :: 0 <= i < |r| ==>
              r[i].key in coords && r[i].coord == coords[r[i].key] && r[i].key in vs && r[i].count == multiset(vs)[r[i].key]
    ensures forall v :: HasKey(r, v) <==> v in coords && v in vs
  {
    forall i | 0 <= i < |r|
      ensures r[i].key in coords && r[i].coord == coords[r[i].key] && r[i].key in vs && r[i].count == multiset(vs)[r[i].key]
    {
      assert r[i] in r;
      var k :| 0 <= k < |counts| && counts[k] == Entry(r[i].key, r[i].count);
    }
    forall v | v in coords && v in vs ensures HasKey(r, v) {
      var p := Located(v, multiset(vs)[v], coords[v]);
      assert p in r;
      var i :| 0 <= i < |r| && r[i] == p;
    }
  }

  /** A value occurs in a column exactly when it is one of the column's
      values. */
  lemma OccursInColumn(rows: seq<Row>, c: string)
    requires HasColumn(rows, c)
    ensures forall v :: Occurs(rows, c, v) <==> v in ColumnValues(rows, c)
  {
    var vs := ColumnValues(rows, c);
    forall v | v in vs ensures Occurs(rows, c, v) {
      var i :| 0 <= i < |vs| && vs[i] == v;
    }
  }

  /** The (province, district) pair of every row, top to bottom. */
  function PlacesOf(view: seq<Row>): (ps: seq<Place>)
    requires HasColumn(view, PROVINCIA) && HasColumn(view, DISTRITO)
    ensures |ps| == |view|
    ensures forall i :: 0 <= i < |view| ==> ps[i] == (view[i][PROVINCIA], view[i][DISTRITO])
  {
    seq(|view|, i requires 0 <= i < |view| => (view[i][PROVINCIA], view[i][DISTRITO]))
  }

  /** Some row lies in district `p.1` of province `p.0`. */
  ghost predicate OccursAtPlace(view: seq<Row>, p: Place) {
    exists i :: 0 <= i < |view| && PROVINCIA in view[i] && DISTRITO in view[i] &&
                view[i][PROVINCIA] == p.0 && view[i][DISTRITO] == p.1
  }

  /** The district view (group by province and district, count, then join
      with the coordinate table): one point per pair of the view that has a
      coordinate, with the number of rows of that pair. */
  function DistrictPoints(view: seq<Row>, coords: map<Place, Coord>): (r: seq<Located<Place>>)
    requires HasColumn(view, PROVINCIA) && HasColumn(view, DISTRITO)
    ensures DistinctKeys(r)
    ensures forall i :: 0 <= i < |r| ==>
              r[i].key in coords && r[i].coord == coords[r[i].key] &&
              r[i].count == multiset(PlacesOf(view))[r[i].key] && r[i].count >= 1
    ensures forall p :: HasKey(r, p) <==> p in coords && OccursAtPlace(view, p)
    ensures Total(r) == CountIn(PlacesOf(view), coords.Keys)
  {
    var ps := PlacesOf(view);
    var counts := SortedCounts(ps);
    SortedCountsSum(ps, coords.Keys);
    var r := Join(counts, coords);
    JoinMembers(counts, coords);
    JoinTotal(counts, coords);
    JoinDistinct(counts, coords);
    JoinedKeys(ps, counts, coords, r);
    OccursAtPlaceIff(view);
    r
  }

  lemma OccursAtPlaceIff(view: seq<Row>)
    requires HasColumn(view, PROVINCIA) && HasColumn(view, DISTRITO)
    ensures forall p :: OccursAtPlace(view, p) <==> p in PlacesOf(view)
  {
    var ps := PlacesOf(view);
    forall p ensures OccursAtPlace(view, p) <==> p in ps {
      if p in ps {
        var i :| 0 <= i < |ps| && ps[i] == p;
      }
      if OccursAtPlace(view, p) {
        var i :| 0 <= i < |view| && view[i][PROVINCIA] == p.0 && view[i][DISTRITO] == p.1;
        assert ps[i] == p;
      }
    }
  }

  /** The map block: the requested view, except that the district view
      without a coordinate table falls back to the province view and
      reports the province mode. */
  function Aggregate(view: seq<Row>, requested: Granularity, districtCoords: Option<map<Place, Coord>>,
                     provinceCoords: map<string, Coord>): (r: MapData)
    requires HasColumn(view, PROVINCIA) && HasColumn(view, DISTRITO)
    ensures r.Mode() == Distrito <==> requested == Distrito && districtCoords.Some?
    ensures r.ProvinceMap? ==> r.provinces == ProvincePoints(view, provinceCoords)
    ensures r.DistrictMap? ==> r.districts == DistrictPoints(view, districtCoords.value)
  {
    match requested
    case Provincia => ProvinceMap(ProvincePoints(view, provinceCoords))
    case Distrito =>
      match districtCoords
      case Some(coords) => DistrictMap(DistrictPoints(view, coords))
      case None => ProvinceMap(ProvincePoints(view, provinceCoords))
  }

  /** Without a district coordinate table, asking for districts gives
      exactly what asking for provinces gives, whatever table the province
      request would have had. */
  lemma FallbackIsProvinceView(view: seq<Row>, provinceCoords: map<string, Coord>, any: Option<map<Place, Coord>>)
    requires HasColumn(view, PROVINCIA) && HasColumn(view, DISTRITO)
    ensures Aggregate(view, Distrito, None, provinceCoords) == Aggregate(view, Provincia, any, provinceCoords)
    ensures Aggregate(view, Distrito, None, provinceCoords).Mode() == Provincia
  {
  }

  /** The map has nothing to draw exactly when no row of the view lies in a
      place with a coordinate; in particular when the view is empty. */
  lemma EmptyMapMeansNoKnownPlace(view: seq<Row>, requested: Granularity,
                                  districtCoords: Option<map<Place, Coord>>, provinceCoords: map<string, Coord>)
    requires HasColumn(view, PROVINCIA) && HasColumn(view, DISTRITO)
    ensures var r := Aggregate(view, requested, districtCoords, provinceCoords);
            r.IsEmpty() <==>
              if r.ProvinceMap? then forall i :: 0 <= i < |view| ==> view[i][PROVINCIA] !in provinceCoords
              else forall i :: 0 <= i < |view| ==> (view[i][PROVINCIA], view[i][DISTRITO]) !in districtCoords.value
    ensures |view| == 0 ==> Aggregate(view, requested, districtCoords, provinceCoords).IsEmpty()
  {
    var r := Aggregate(view, requested, districtCoords, provinceCoords);
    if r.ProvinceMap? {
      NoProvincePoints(view, provinceCoords);
    } else {
      NoDistrictPoints(view, districtCoords.value);
    }
  }

  lemma NoProvincePoints(view: seq<Row>, coords: map<string, Coord>)
    requires HasColumn(view, PROVINCIA)
    ensures |ProvincePoints(view, coords)| == 0 <==> forall i :: 0 <= i < |view| ==> view[i][PROVINCIA] !in coords
  {
    var ps := ProvincePoints(view, coords);
    if |ps| > 0 {
      assert HasKey(ps, ps[0].key);
      var i :| 0 <= i < |view| && view[i][PROVINCIA] == ps[0].key;
    }
    forall i | 0 <= i < |view| && view[i][PROVINCIA] in coords ensures |ps| > 0 {
      assert Occurs(view, PROVINCIA, view[i][PROVINCIA]);
      assert HasKey(ps, view[i][PROVINCIA]);
    }
  }

  lemma NoDistrictPoints(view: seq<Row>, coords: map<Place, Coord>)
    requires HasColumn(view, PROVINCIA) && HasColumn(view, DISTRITO)
    ensures |DistrictPoints(view, coords)| == 0 <==>
              forall i :: 0 <= i < |view| ==> (view[i][PROVINCIA], view[i][DISTRITO]) !in coords
  {
    var ds := DistrictPoints(view, coords);
    if |ds| > 0 {
      assert HasKey(ds, ds[0].key);
      var i :| 0 <= i < |view| && view[i][PROVINCIA] == ds[0].key.0 && view[i][DISTRITO] == ds[0].key.1;
      assert (view[i][PROVINCIA], view[i][DISTRITO]) == ds[0].key;
    }
    forall i | 0 <= i < |view| && (view[i][PROVINCIA], view[i][DISTRITO]) in coords ensures |ds| > 0 {
      var p := (view[i][PROVINCIA], view[i][DISTRITO]);
      assert OccursAtPlace(view, p);
      assert HasKey(ds, p);
    }
  }
}
