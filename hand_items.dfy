/** `create_stac_item` of the HAND item generator: a STAC item built from an
    S3 key, the bucket's base url and the `wgs84Extent` polygon that GDAL
    reports for the file. */
module HandItems {
  import opened Results
  import opened Text

  /** A GeoJSON position; only comparisons are made on coordinates. */
  datatype Point = Point(x: real, y: real)

  /** A GeoJSON polygon: its linear rings, the exterior ring first. */
  datatype Polygon = Polygon(rings: seq<seq<Point>>)

  /** The `(minx, miny, maxx, maxy)` tuple of shapely's `bounds`. */
  datatype Bounds = Bounds(minx: real, miny: real, maxx: real, maxy: real)

  datatype Asset = Asset(href: string, mediaType: string)

  /** The item dictionary. `datetime` is the only property; `None` is JSON null.
      `bbox` is `None` where shapely reports NaN bounds for an empty polygon. */
  datatype HandItem = HandItem(
    kind: string,
    stacVersion: string,
    id: string,
    datetime: Option<string>,
    geometry: Polygon,
    assets: map<string, Asset>,
    bbox: Option<Bounds>,
    stacExtensions: seq<string>,
    collection: string)

  const CollectionId: string := "glo-30-hand"
  const GeoTiff: string := "image/tiff; application=geotiff"

  // ---------------------------------------------------------------------
  // Bounds

  function MinOf(xs: seq<real>): (m: real)
    requires |xs| > 0
    ensures forall i :: 0 <= i < |xs| ==> m <= xs[i]
    ensures exists i :: 0 <= i < |xs| && m == xs[i]
    decreases |xs|
  {
    if |xs| == 1 then xs[0]
    else
      var rest := MinOf(xs[1..]);
      assert forall i :: 1 <= i < |xs| ==> xs[i] == xs[1..][i - 1];
      if xs[0] <= rest then xs[0] else rest
  }

  function MaxOf(xs: seq<real>): (m: real)
    requires |xs| > 0
    ensures forall i :: 0 <= i < |xs| ==> xs[i] <= m
    ensures exists i :: 0 <= i < |xs| && m == xs[i]
    decreases |xs|
  {
    if |xs| == 1 then xs[0]
    else
      var rest := MaxOf(xs[1..]);
      assert forall i :: 1 <= i < |xs| ==> xs[i] == xs[1..][i - 1];
      if rest <= xs[0] then xs[0] else rest
  }

  function Xs(ring: seq<Point>): (xs: seq<real>)
    ensures |xs| == |ring| && forall i :: 0 <= i < |ring| ==> xs[i] == ring[i].x
  {
    seq(|ring|, i requires 0 <= i < |ring| => ring[i].x)
  }

  function Ys(ring: seq<Point>): (ys: seq<real>)
    ensures |ys| == |ring| && forall i :: 0 <= i < |ring| ==> ys[i] == ring[i].y
  {
    seq(|ring|, i requires 0 <= i < |ring| => ring[i].y)
  }

  /** `shape(geometry).bounds` for a polygon: the envelope of its exterior
      ring, or nothing for an empty polygon. */
  function ShapeBounds(g: Polygon): (b: Option<Bounds>)
    ensures b.Some? <==> |g.rings| > 0 && |g.rings[0]| > 0
  {
    if |g.rings| == 0 || |g.rings[0]| == 0 then None
    else
      var ring := g.rings[0];
      Some(Bounds(MinOf(Xs(ring)), MinOf(Ys(ring)), MaxOf(Xs(ring)), MaxOf(Ys(ring))))
  }

  /** Every point of the exterior ring lies inside the bounds. */
  predicate Encloses(b: Bounds, ring: seq<Point>)
  {
    forall i :: 0 <= i < |ring| ==> b.minx <= ring[i].x <= b.maxx && b.miny <= ring[i].y <= b.maxy
  }

  /** Each of the four edges of the bounds touches a point of the ring. */
  predicate Tight(b: Bounds, ring: seq<Point>)
  {
    && (exists i :: 0 <= i < |ring| && ring[i].x == b.minx)
    && (exists i :: 0 <= i < |ring| && ring[i].y == b.miny)
    && (exists i :: 0 <= i < |ring| && ring[i].x == b.maxx)
    && (exists i :: 0 <= i < |ring| && ring[i].y == b.maxy)
  }

  /** The bounds are the smallest box around the exterior ring. */
  lemma BoundsAreEnvelope(g: Polygon)
    requires |g.rings| > 0 && |g.rings[0]| > 0
    ensures Encloses(ShapeBounds(g).value, g.rings[0])
    ensures Tight(ShapeBounds(g).value, g.rings[0])
  {
    var ring := g.rings[0];
    var xs, ys := Xs(ring), Ys(ring);
    var b := ShapeBounds(g).value;
    var i1 :| 0 <= i1 < |xs| && b.minx == xs[i1];
    var i2 :| 0 <= i2 < |ys| && b.miny == ys[i2];
    var i3 :| 0 <= i3 < |xs| && b.maxx == xs[i3];
    var i4 :| 0 <= i4 < |ys| && b.maxy == ys[i4];
    assert ring[i1].x == b.minx && ring[i2].y == b.miny && ring[i3].x == b.maxx && ring[i4].y == b.maxy;
  }

  /** Any box that encloses the ring contains the bounds. */
  lemma BoundsAreSmallest(g: Polygon, c: Bounds)
    requires |g.rings| > 0 && |g.rings[0]| > 0
    requires Encloses(c, g.rings[0])
    ensures var b := ShapeBounds(g).value;
            c.minx <= b.minx && c.miny <= b.miny && b.maxx <= c.maxx && b.maxy <= c.maxy
  {
    BoundsAreEnvelope(g);
    var b := ShapeBounds(g).value;
    var ring := g.rings[0];
    var i1 :| 0 <= i1 < |ring| && ring[i1].x == b.minx;
    var i2 :| 0 <= i2 < |ring| && ring[i2].y == b.miny;
    var i3 :| 0 <= i3 < |ring| && ring[i3].x == b.maxx;
    var i4 :| 0 <= i4 < |ring| && ring[i4].y == b.maxy;
  }

  // ---------------------------------------------------------------------
  // urljoin for the plain case

  function StartsWith(s: string, prefix: string): bool
  {
    |prefix| <= |s| && s[..|prefix|] == prefix
  }

  /** Path segments that `urljoin` keeps as they are: not empty, not `.` or `..`. */
  predicate PlainSegments(p: string)
  {
    var segs := Split(p, '/');
    forall i :: 0 <= i < |segs| ==> segs[i] != "" && segs[i] != "." && segs[i] != ".."
  }

  /** Text that `urlsplit` leaves as it is: it deletes every tab, carriage
      return and line feed, and strips control characters and spaces from
      the front. */
  predicate Unstripped(u: string)
  {
    && '\t' !in u && '\n' !in u && '\r' !in u
    && (u != [] ==> u[0] > ' ')
  }

  /** A base url ending in `/`, with an optional `http://` or `https://` scheme,
      no query or fragment, and a path that `urljoin` does not normalise. ASCII
      only and without brackets, so that `urlsplit` accepts its host. */
  predicate PlainBase(base: string)
  {
    var rest := if StartsWith(base, "https://") then base[8..]
                else if StartsWith(base, "http://") then base[7..]
                else base;
    && |rest| > 0 && rest[|rest| - 1] == '/'
    && ':' !in rest && '?' !in base && '#' !in base
    && '[' !in base && ']' !in base
    && (forall i :: 0 <= i < |base| ==> base[i] < '\U{80}')
    && Unstripped(base)
    && PlainSegments(rest[..|rest| - 1])
  }

  /** A relative key: no scheme, no leading `/`, no `;params` part (which
      `urlparse` cuts off the last segment before resolving dot segments, and
      `urlunparse` drops when empty), no query or fragment, and segments that
      `urljoin` keeps. */
  predicate PlainKey(key: string)
  {
    && key != [] && key[0] != '/'
    && ':' !in key && ';' !in key && '?' !in key && '#' !in key
    && Unstripped(key)
    && PlainSegments(key)
  }

  // ---------------------------------------------------------------------
  // create_stac_item

  /** `create_stac_item(s3_key, s3_url, gdal_info_output)`, where `extent` is
      `gdal_info_output['wgs84Extent']`. `urljoin(base, key)` is `base + key`
      for a plain base and key. */
  function CreateStacItem(key: string, base: string, extent: Polygon): (item: HandItem)
    requires PlainBase(base) && PlainKey(key)
    ensures item.kind == "Feature" && item.stacVersion == "1.0.0"
    ensures item.id == Stem(key)
    ensures item.datetime == None
    ensures item.geometry == extent
    ensures item.assets.Keys == {"data"}
    ensures "data" in item.assets && item.assets["data"] == Asset(base + key, GeoTiff)
    ensures item.bbox == ShapeBounds(extent)
    ensures item.stacExtensions == [] && item.collection == "glo-30-hand"
  {
    HandItem(
      kind := "Feature",
      stacVersion := "1.0.0",
      id := Stem(key),
      datetime := None,
      geometry := extent,
      assets := map["data" := Asset(base + key, GeoTiff)],
      bbox := ShapeBounds(extent),
      stacExtensions := [],
      collection := CollectionId)
  }

  /** The item id is the stem of its own data href: the base adds directories
      in front of the key but cannot change its last component. */
  lemma HrefStemIsId(key: string, base: string, extent: Polygon)
    requires PlainBase(base) && PlainKey(key)
    ensures var item := CreateStacItem(key, base, extent);
            Stem(item.assets["data"].href) == item.id
  {
    PlainKeyHasName(key);
    var dir := PlainBaseDir(base);
    assert base + key == dir + "/" + key;
    NameAfterSlash(dir, key);
  }

  lemma PlainKeyHasName(key: string)
    requires PlainKey(key)
    ensures PathComponents(key) != []
  {
    var segs := Split(key, '/');
    ComponentsOfPlain(segs);
  }

  /** The directory a plain base url names, without its final `/`. */
  function PlainBaseDir(base: string): (dir: string)
    requires PlainBase(base)
    ensures base == dir + "/"
  {
    base[..|base| - 1]
  }

  /** The item's bbox is the envelope of the geometry it carries. */
  lemma ItemBboxEnclosesGeometry(key: string, base: string, extent: Polygon)
    requires PlainBase(base) && PlainKey(key)
    requires |extent.rings| > 0 && |extent.rings[0]| > 0
    ensures var item := CreateStacItem(key, base, extent);
            && item.bbox.Some?
            && Encloses(item.bbox.value, item.geometry.rings[0])
            && Tight(item.bbox.value, item.geometry.rings[0])
  {
    BoundsAreEnvelope(extent);
  }

  /** A key `dirs/NAME.ext` gives the item id `NAME`, as the repository's
      test expects of `v1/2021/Copernicus_DSM_COG_10_N00_00_E006_00_HAND.tif`. */
  lemma ItemIdOfFileKey(dirs: string, name: string, ext: string, base: string, extent: Polygon)
    requires name != [] && ext != [] && '/' !in name && '/' !in ext && '.' !in ext
    requires PlainBase(base) && PlainKey(dirs + "/" + name + "." + ext)
    ensures CreateStacItem(dirs + "/" + name + "." + ext, base, extent).id == name
  {
    assert dirs + "/" + name + "." + ext == dirs + "/" + (name + "." + ext);
    StemOfFileName(name, ext);
    NameAfterSlash(dirs, name + "." + ext);
  }

  /** A box that encloses the exterior ring and touches it on all four edges
      is the polygon's bounds. */
  lemma TightBoxIsBounds(g: Polygon, c: Bounds)
    requires |g.rings| > 0 && |g.rings[0]| > 0
    requires Encloses(c, g.rings[0]) && Tight(c, g.rings[0])
    ensures ShapeBounds(g) == Some(c)
  {
    var ring := g.rings[0];
    var xs, ys := Xs(ring), Ys(ring);
    var b := Bounds(MinOf(xs), MinOf(ys), MaxOf(xs), MaxOf(ys));
    assert ShapeBounds(g) == Some(b);
    BoundsAreSmallest(g, c);
    var i1 :| 0 <= i1 < |ring| && ring[i1].x == c.minx;
    var i2 :| 0 <= i2 < |ring| && ring[i2].y == c.miny;
    var i3 :| 0 <= i3 < |ring| && ring[i3].x == c.maxx;
    var i4 :| 0 <= i4 < |ring| && ring[i4].y == c.maxy;
    assert xs[i1] == c.minx && ys[i2] == c.miny && xs[i3] == c.maxx && ys[i4] == c.maxy;
    assert b.minx <= c.minx && b.miny <= c.miny && c.maxx <= b.maxx && c.maxy <= b.maxy;
    assert b == c;
  }

  /** The ring of a closed axis-aligned rectangle, corners listed from the
      north-west going south first, as GDAL reports a tile's extent. */
  function Rectangle(x0: real, y0: real, x1: real, y1: real): seq<Point>
  {
    [Point(x0, y1), Point(x0, y0), Point(x1, y0), Point(x1, y1), Point(x0, y1)]
  }

  lemma RectangleEncloses(x0: real, y0: real, x1: real, y1: real)
    requires x0 <= x1 && y0 <= y1
    ensures Encloses(Bounds(x0, y0, x1, y1), Rectangle(x0, y0, x1, y1))
  {
    var ring := Rectangle(x0, y0, x1, y1);
    forall i | 0 <= i < |ring| ensures x0 <= ring[i].x <= x1 && y0 <= ring[i].y <= y1 {
      assert ring[i] in ring;
    }
  }

  /** The bounds of such a rectangle are its south-west and north-east
      corners, as in the repository's test. */
  lemma RectangleBounds(x0: real, y0: real, x1: real, y1: real)
    requires x0 <= x1 && y0 <= y1
    ensures ShapeBounds(Polygon([Rectangle(x0, y0, x1, y1)])) == Some(Bounds(x0, y0, x1, y1))
  {
    var ring := Rectangle(x0, y0, x1, y1);
    var c := Bounds(x0, y0, x1, y1);
    RectangleEncloses(x0, y0, x1, y1);
    assert ring[1].x == x0 && ring[1].y == y0 && ring[2].x == x1 && ring[0].y == y1;
    assert Tight(c, ring);
    TightBoxIsBounds(Polygon([ring]), c);
  }
}
