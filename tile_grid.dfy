/** The coherence dataset's 1°×1° tiles. A tile id such as `S78W161` names the
    north-west corner of its cell: latitude digits at positions 1-2, longitude
    digits at positions 4-6, hemisphere letters at positions 0 and 3. Both
    coherence scripts decode it with the same `tileid_to_bbox`, so it is defined
    once here. */
module TileGrid {
  import opened Results
  import opened Text

  /** `shapely.geometry.box(minx, miny, maxx, maxy)` with integer corners. */
  datatype Box = Box(minx: int, miny: int, maxx: int, maxy: int)

  /** Why `int()` raised inside `tileid_to_bbox`. */
  datatype TileError = BadLatitude | BadLongitude

  /** Why a file name could not be parsed; shared by both coherence parsers. */
  datatype NameError =
    | WrongPartCount(count: nat)      // unpacking into 3 or 4 names failed
    | BadTileId(tile: TileError)      // int() in tileid_to_bbox failed
    | UnknownSeason(season: string)   // the season table has no such key

  /** Python's slice `s[i:j]` for `0 <= i <= j`: out-of-range bounds are clamped. */
  function Slice(s: string, i: nat, j: nat): (r: string)
    requires i <= j
    ensures |r| == (if |s| <= i then 0 else if |s| <= j then |s| - i else j - i)
    ensures |s| >= j ==> r == s[i..j]
    ensures i < |s| < j ==> r == s[i..]
    ensures |s| <= i ==> r == []
  {
    if |s| <= i then "" else if |s| <= j then s[i..] else s[i..j]
  }

  /** `tileid_to_bbox`: `int(tileid[1:3])` is the north edge, negated when
      character 0 is `S`; `int(tileid[4:7])` is the west edge, negated when
      character 3 is `W`; the box reaches one unit south and one unit east. */
  function TileIdToBbox(tileid: string): (r: Result<Box, TileError>)
    ensures r.Failure? <==> ParseInt(Slice(tileid, 1, 3)).None? || ParseInt(Slice(tileid, 4, 7)).None?
    ensures r.Failure? ==> (r.error == BadLatitude <==> ParseInt(Slice(tileid, 1, 3)).None?)
    ensures r.Success? ==> |tileid| >= 5
    ensures r.Success? ==> r.value.maxx == r.value.minx + 1 && r.value.maxy == r.value.miny + 1
  {
    match ParseInt(Slice(tileid, 1, 3))
    case None => Failure(BadLatitude)
    case Some(lat) =>
      var north := if tileid[0] == 'S' then -lat else lat;
      var south := north - 1;
      match ParseInt(Slice(tileid, 4, 7))
      case None => Failure(BadLongitude)
      case Some(lon) =>
        var west := if tileid[3] == 'W' then -(lon as int) else lon;
        var east := west + 1;
        Success(Box(west, south, east, north))
  }

  /** The tile id of the cell whose corner is `lat` degrees (hemisphere `ns`)
      and `lon` degrees (hemisphere `ew`), as the dataset writes it. */
  function FormatTileId(ns: char, lat: nat, ew: char, lon: nat): (id: string)
    requires lat < 100 && lon < 1000
    ensures |id| == 7
  {
    [ns] + ZeroPad(lat, 2) + [ew] + ZeroPad(lon, 3)
  }

  /** Once both slices read as numbers, the box follows from them and from
      the two hemisphere characters. */
  lemma TileIdToBboxOf(id: string, lat: int, lon: int)
    requires ParseInt(Slice(id, 1, 3)) == Some(lat) && ParseInt(Slice(id, 4, 7)) == Some(lon)
    ensures |id| >= 5
    ensures var north := if id[0] == 'S' then -(lat as int) else lat;
            var west := if id[3] == 'W' then -(lon as int) else lon;
            TileIdToBbox(id) == Success(Box(west, north - 1, west + 1, north))
  {
  }

  /** Decoding a formatted tile id (followed by anything at all, which the
      slices ignore) gives the unit cell south-east of the named corner. The
      sign is negative exactly for `S` and `W`; any other hemisphere character,
      including a lower-case `s`/`w`, leaves the coordinate non-negative. */
  lemma TileIdDecodes(ns: char, lat: nat, ew: char, lon: nat, rest: string)
    requires lat < 100 && lon < 1000
    ensures var north: int := if ns == 'S' then -(lat as int) else lat;
            var west: int := if ew == 'W' then -(lon as int) else lon;
            TileIdToBbox(FormatTileId(ns, lat, ew, lon) + rest) == Success(Box(west, north - 1, west + 1, north))
  {
    var id := FormatTileId(ns, lat, ew, lon) + rest;
    var la := ZeroPad(lat, 2);
    var lo := ZeroPad(lon, 3);
    assert id == [ns] + la + [ew] + lo + rest;
    assert Slice(id, 1, 3) == la;
    assert Slice(id, 4, 7) == lo;
    assert id[0] == ns && id[3] == ew;
    ParseIntZeroPad(lat, 2);
    ParseIntZeroPad(lon, 3);
    TileIdToBboxOf(id, lat, lon);
  }

  /** `int()` of a zero-padded literal, one literal at a time. */
  lemma ParsePadded(s: string, n: nat, width: nat)
    requires 0 < width && n < Pow10(width) && s == ZeroPad(n, width)
    ensures ParseInt(s) == Some(n)
  {
    ParseIntZeroPad(n, width);
  }

  lemma TileIdExampleN49E009(id: string)
    requires id == "N49E009"
    ensures TileIdToBbox(id) == Success(Box(9, 48, 10, 49))
  {
    var la, lo := Slice(id, 1, 3), Slice(id, 4, 7);
    assert la == "49" && lo == "009";
    ParsePadded(la, 49, 2);
    ParsePadded(lo, 9, 3);
    TileIdToBboxOf(id, 49, 9);
  }

  lemma TileIdExampleN48W090(id: string)
    requires id == "N48W090"
    ensures TileIdToBbox(id) == Success(Box(-90, 47, -89, 48))
  {
    var la, lo := Slice(id, 1, 3), Slice(id, 4, 7);
    assert la == "48" && lo == "090";
    ParsePadded(la, 48, 2);
    ParsePadded(lo, 90, 3);
    TileIdToBboxOf(id, 48, 90);
  }

  lemma TileIdExampleS01E012(id: string)
    requires id == "S01E012"
    ensures TileIdToBbox(id) == Success(Box(12, -2, 13, -1))
  {
    var la, lo := Slice(id, 1, 3), Slice(id, 4, 7);
    assert la == "01" && lo == "012";
    ParsePadded(la, 1, 2);
    ParsePadded(lo, 12, 3);
    TileIdToBboxOf(id, 1, 12);
  }

  lemma TileIdExampleS78W161(id: string)
    requires id == "S78W161"
    ensures TileIdToBbox(id) == Success(Box(-161, -79, -160, -78))
  {
    var la, lo := Slice(id, 1, 3), Slice(id, 4, 7);
    assert la == "78" && lo == "161";
    ParsePadded(la, 78, 2);
    ParsePadded(lo, 161, 3);
    TileIdToBboxOf(id, 78, 161);
  }

  /** Two tile ids that differ only in the latitude hemisphere letter name the
      same cell exactly when the latitude is zero (-0 is 0, so `S00…` and
      `N00…` coincide) or both letters are on the same side of the `S` test. */
  lemma LatitudeLetter(ns1: char, ns2: char, lat: nat, ew: char, lon: nat)
    requires lat < 100 && lon < 1000
    ensures TileIdToBbox(FormatTileId(ns1, lat, ew, lon)) == TileIdToBbox(FormatTileId(ns2, lat, ew, lon))
            <==> lat == 0 || (ns1 == 'S') == (ns2 == 'S')
  {
    TileIdDecodes(ns1, lat, ew, lon, "");
    TileIdDecodes(ns2, lat, ew, lon, "");
    assert FormatTileId(ns1, lat, ew, lon) + "" == FormatTileId(ns1, lat, ew, lon);
    assert FormatTileId(ns2, lat, ew, lon) + "" == FormatTileId(ns2, lat, ew, lon);
  }

  /** Likewise for the longitude letter: `…W000` and `…E000` coincide. */
  lemma LongitudeLetter(ns: char, lat: nat, ew1: char, ew2: char, lon: nat)
    requires lat < 100 && lon < 1000
    ensures TileIdToBbox(FormatTileId(ns, lat, ew1, lon)) == TileIdToBbox(FormatTileId(ns, lat, ew2, lon))
            <==> lon == 0 || (ew1 == 'W') == (ew2 == 'W')
  {
    TileIdDecodes(ns, lat, ew1, lon, "");
    TileIdDecodes(ns, lat, ew2, lon, "");
    assert FormatTileId(ns, lat, ew1, lon) + "" == FormatTileId(ns, lat, ew1, lon);
    assert FormatTileId(ns, lat, ew2, lon) + "" == FormatTileId(ns, lat, ew2, lon);
  }
}
