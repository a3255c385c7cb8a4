/**
 * The region filter: the boundary polygon is turned into a GeoJSON polygon
 * with each coordinate pair swapped, covered by H3 cells at a fixed
 * resolution, and a row is in the region exactly when its cell id is one of
 * those cells. The H3 polyfill itself is a parameter.
 */
module Location {
  import opened Selection
  import opened Records

  /** A coordinate pair as the boundary polygon stores it. */
  datatype Coord = Coord(first: real, second: real)

  datatype Polygon = Polygon(exterior: seq<Coord>)

  /** A GeoJSON geometry: its "type" and its list of rings. */
  datatype GeoJson = GeoJson(kind: string, coordinates: seq<seq<Coord>>)

  /** The boundary and `h3.polyfill`, which covers a GeoJSON polygon with cells at a resolution. */
  datatype Region = Region(boundary: Polygon, polyfill: (GeoJson, nat) -> set<string>)

  /** The H3 resolution the filter always uses. */
  const Resolution: nat := 7

  function Swap(c: Coord): Coord
  {
    Coord(c.second, c.first)
  }

  /** Each pair (a, b) becomes (b, a); count and order are kept. */
  function SwapCoordinates(coords: seq<Coord>): (r: seq<Coord>)
    ensures |r| == |coords|
    ensures forall i :: 0 <= i < |r| ==> r[i].first == coords[i].second && r[i].second == coords[i].first
  {
    seq(|coords|, i requires 0 <= i < |coords| => Swap(coords[i]))
  }

  /** Swapping twice gives the coordinates back. */
  lemma SwapCoordinatesTwice(coords: seq<Coord>)
    ensures SwapCoordinates(SwapCoordinates(coords)) == coords
  {
    var twice := SwapCoordinates(SwapCoordinates(coords));
    assert forall i :: 0 <= i < |coords| ==> twice[i] == coords[i];
  }

  /** Swapping is one-to-one: different boundaries give different rings. */
  lemma SwapCoordinatesInjective(a: seq<Coord>, b: seq<Coord>)
    requires SwapCoordinates(a) == SwapCoordinates(b)
    ensures a == b
  {
    SwapCoordinatesTwice(a);
    SwapCoordinatesTwice(b);
  }

  /** The GeoJSON handed to the polyfill: a "Polygon" whose single ring is the swapped exterior. */
  function GeoJsonOf(polygon: Polygon): (g: GeoJson)
    ensures g.kind == "Polygon"
    ensures |g.coordinates| == 1
    ensures |g.coordinates[0]| == |polygon.exterior|
    ensures forall i :: 0 <= i < |polygon.exterior| ==> g.coordinates[0][i] == Swap(polygon.exterior[i])
  {
    GeoJson("Polygon", [SwapCoordinates(polygon.exterior)])
  }

  /** `get_cells_from_polygon`. */
  function CellsFromPolygon(polygon: Polygon, resolution: nat, polyfill: (GeoJson, nat) -> set<string>): (cells: set<string>)
    ensures exists g: GeoJson ::
              (g.kind == "Polygon" && |g.coordinates| == 1
               && SwapCoordinates(g.coordinates[0]) == polygon.exterior && cells == polyfill(g, resolution))
  {
    var g := GeoJsonOf(polygon);
    SwapCoordinatesTwice(polygon.exterior);
    assert SwapCoordinates(g.coordinates[0]) == polygon.exterior;
    polyfill(g, resolution)
  }

  /** The cell set `geo_filter` computes on every call. */
  function Cells(region: Region): set<string>
  {
    CellsFromPolygon(region.boundary, Resolution, region.polyfill)
  }

  function InRegion(cells: set<string>): Record -> bool
  {
    (r: Record) => r.cellId in cells
  }

  /** In the region and passing `quality`: the region stage followed by the quality stage. */
  function InRegionPassing(region: Region, quality: Record -> bool): Record -> bool
  {
    (r: Record) => InRegion(Cells(region))(r) && quality(r)
  }

  /** `geo_filter(df)`: the rows whose cell id is one of the region's cells. */
  function GeoFilter(region: Region, rows: seq<Record>): (kept: seq<Record>)
    ensures |kept| <= |rows|
    ensures forall r :: r in kept <==> r in rows && r.cellId in Cells(region)
  {
    Select(rows, InRegion(Cells(region)))
  }

  /** The polyfill sees exactly the swapped boundary at resolution 7. */
  lemma CellsAreFixed(region: Region)
    ensures Cells(region) == region.polyfill(GeoJson("Polygon", [SwapCoordinates(region.boundary.exterior)]), 7)
  {
  }

  /** Kept rows are input rows, unchanged and in their original order. */
  lemma GeoFilterSubsequence(region: Region, rows: seq<Record>)
    ensures IsSubsequence(GeoFilter(region, rows), rows)
  {
    SelectIsSubsequence(rows, InRegion(Cells(region)));
  }

  lemma GeoFilterIdempotent(region: Region, rows: seq<Record>)
    ensures GeoFilter(region, GeoFilter(region, rows)) == GeoFilter(region, rows)
  {
    SelectIdempotent(rows, InRegion(Cells(region)));
  }

  /** Filtering row groups one at a time and joining them is filtering the joined rows. */
  lemma GeoFilterConcat(region: Region, a: seq<Record>, b: seq<Record>)
    ensures GeoFilter(region, a + b) == GeoFilter(region, a) + GeoFilter(region, b)
  {
    SelectConcat(a, b, InRegion(Cells(region)));
  }
}
