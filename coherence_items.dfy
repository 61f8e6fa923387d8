/** `parse_s3_key` of the coherence item generator: the whole S3 key is
    upper-cased, its last `/` segment is split on `_`, and three fields make a
    yearly record while four make a seasonal one, whose season is looked up in
    the upper-case season table. */
module CoherenceItems {
  import opened Results
  import opened Text
  import opened TileGrid
  import opened Seasons

  /** The metadata dictionary `parse_s3_key` returns, by its two shapes. */
  datatype Metadata =
    | Yearly(bbox: Box, tileid: string, product: string)
    | Seasonal(bbox: Box, tileid: string, product: string,
               dateRange: DateRange, season: string, polarization: string)

  /** `key.upper().split('/')[-1].split('_')`. */
  function KeyFields(key: string): (parts: seq<string>)
    ensures |parts| >= 1
    ensures forall i :: 0 <= i < |parts| ==> '_' !in parts[i]
  {
    var segments := Split(ToUpper(key), '/');
    Split(segments[|segments| - 1], '_')
  }

  /** `parse_s3_key`. A part count other than 3 or 4 fails the tuple unpacking
      first; then `tileid_to_bbox` may fail; last the season lookup may. */
  function ParseS3Key(key: string): (r: Result<Metadata, NameError>)
    ensures var parts := KeyFields(key);
            r.Success? <==> && (|parts| == 3 || |parts| == 4)
                            && TileIdToBbox(parts[0]).Success?
                            && (|parts| == 4 ==> parts[1] in SeasonDateRanges)
    ensures var parts := KeyFields(key);
            r.Success? ==> && r.value.tileid == parts[0]
                           && r.value.product == parts[|parts| - 1]
                           && TileIdToBbox(parts[0]) == Success(r.value.bbox)
                           && (r.value.Yearly? <==> |parts| == 3)
    ensures var parts := KeyFields(key);
            r.Success? && r.value.Seasonal? ==>
              && r.value.season == parts[1]
              && r.value.polarization == parts[2]
              && r.value.dateRange == SeasonDateRanges[parts[1]]
    ensures var parts := KeyFields(key);
            r.Failure? ==>
              if |parts| != 3 && |parts| != 4 then r.error == WrongPartCount(|parts|)
              else if TileIdToBbox(parts[0]).Failure? then r.error == BadTileId(TileIdToBbox(parts[0]).error)
              else r.error == UnknownSeason(parts[1])
  {
    var parts := KeyFields(key);
    if |parts| != 3 && |parts| != 4 then Failure(WrongPartCount(|parts|))
    else
      match TileIdToBbox(parts[0])
      case Failure(e) => Failure(BadTileId(e))
      case Success(bbox) =>
        if |parts| == 3 then Success(Yearly(bbox, parts[0], parts[2]))
        else if parts[1] in SeasonDateRanges then
          Success(Seasonal(bbox, parts[0], parts[3], SeasonDateRanges[parts[1]], parts[1], parts[2]))
        else Failure(UnknownSeason(parts[1]))
  }

  /** A file name with three or four `_`-separated fields. */
  function Fields(fs: seq<string>): string
  {
    Join(fs, '_')
  }

  lemma Fields3(a: string, b: string, c: string)
    ensures Fields([a, b, c]) == a + "_" + b + "_" + c
  {
    var fs := [a, b, c];
    assert fs[1..][1..] == [c];
    assert fs[1..] == [b, c];
    assert Join(fs[1..], '_') == b + "_" + c;
  }

  lemma Fields4(a: string, b: string, c: string, d: string)
    ensures Fields([a, b, c, d]) == a + "_" + b + "_" + c + "_" + d
  {
    var fs := [a, b, c, d];
    assert fs[1..] == [b, c, d];
    Fields3(b, c, d);
    assert Fields(fs) == a + "_" + (b + "_" + c + "_" + d);
  }

  /** Upper-casing a `_`-joined name upper-cases each field. */
  lemma {:induction false} UpperFields(fs: seq<string>)
    ensures ToUpper(Fields(fs)) == Fields(seq(|fs|, i requires 0 <= i < |fs| => ToUpper(fs[i])))
    decreases |fs|
  {
    var ups := seq(|fs|, i requires 0 <= i < |fs| => ToUpper(fs[i]));
    if |fs| >= 2 {
      UpperFields(fs[1..]);
      assert ups[1..] == seq(|fs[1..]|, i requires 0 <= i < |fs[1..]| => ToUpper(fs[1..][i]));
      UpperAppend(fs[0] + "_", Join(fs[1..], '_'));
      UpperAppend(fs[0], "_");
      assert ToUpper("_") == "_";
    }
  }

  /** The fields a key `dir/name` yields, for a name without `/` whose fields
      have no `_`: the name's fields, upper-cased. */
  lemma KeyFieldsOf(dir: string, fs: seq<string>)
    requires |fs| >= 1
    requires forall i :: 0 <= i < |fs| ==> '_' !in fs[i] && '/' !in fs[i]
    ensures KeyFields(dir + "/" + Fields(fs)) == seq(|fs|, i requires 0 <= i < |fs| => ToUpper(fs[i]))
  {
    var name := Fields(fs);
    var ups := seq(|fs|, i requires 0 <= i < |fs| => ToUpper(fs[i]));
    NoSlashInFields(fs);
    UpperAppend(dir, "/" + name);
    UpperAppend("/", name);
    assert ToUpper("/") == "/";
    assert ToUpper(dir + "/" + name) == ToUpper(dir) + ['/'] + ToUpper(name);
    UpperKeepsAbsent(name, '/');
    LastSegmentAfterSep(ToUpper(dir), ToUpper(name), '/');
    UpperFields(fs);
    forall i | 0 <= i < |ups| ensures '_' !in ups[i] {
      UpperKeepsAbsent(fs[i], '_');
    }
    SplitJoin(ups, '_');
  }

  lemma {:induction false} NoSlashInFields(fs: seq<string>)
    requires forall i :: 0 <= i < |fs| ==> '/' !in fs[i]
    ensures '/' !in Fields(fs)
    decreases |fs|
  {
    if |fs| >= 2 {
      NoSlashInFields(fs[1..]);
      assert Fields(fs) == fs[0] + "_" + Fields(fs[1..]);
    }
  }

  /** A yearly key `dir/TILE_ORBIT_PRODUCT`: the orbit field is dropped, the
      product keeps its extension, and everything comes back upper-cased. */
  lemma ParseS3KeyYearly(dir: string, tile: string, orbit: string, product: string)
    requires '/' !in tile && '/' !in orbit && '/' !in product
    requires '_' !in tile && '_' !in orbit && '_' !in product
    ensures var t := ToUpper(tile);
            ParseS3Key(dir + "/" + tile + "_" + orbit + "_" + product) ==
              match TileIdToBbox(t)
              case Success(bbox) => Success(Yearly(bbox, t, ToUpper(product)))
              case Failure(e) => Failure(BadTileId(e))
  {
    var fs := [tile, orbit, product];
    Fields3(tile, orbit, product);
    KeyFieldsOf(dir, fs);
    assert dir + "/" + tile + "_" + orbit + "_" + product == dir + "/" + Fields(fs);
    var k := KeyFields(dir + "/" + tile + "_" + orbit + "_" + product);
    assert k == [ToUpper(tile), ToUpper(orbit), ToUpper(product)];
  }

  /** A seasonal key `dir/TILE_SEASON_POL_PRODUCT`: the season is accepted in
      any case, since the lookup happens after upper-casing. */
  lemma ParseS3KeySeasonal(dir: string, tile: string, season: string, pol: string, product: string)
    requires '/' !in tile && '/' !in season && '/' !in pol && '/' !in product
    requires '_' !in tile && '_' !in season && '_' !in pol && '_' !in product
    ensures var t, s := ToUpper(tile), ToUpper(season);
            ParseS3Key(dir + "/" + tile + "_" + season + "_" + pol + "_" + product) ==
              match TileIdToBbox(t)
              case Failure(e) => Failure(BadTileId(e))
              case Success(bbox) =>
                if s in SeasonDateRanges
                then Success(Seasonal(bbox, t, ToUpper(product), SeasonDateRanges[s], s, ToUpper(pol)))
                else Failure(UnknownSeason(s))
  {
    var fs := [tile, season, pol, product];
    Fields4(tile, season, pol, product);
    KeyFieldsOf(dir, fs);
    assert dir + "/" + tile + "_" + season + "_" + pol + "_" + product == dir + "/" + Fields(fs);
    var k := KeyFields(dir + "/" + tile + "_" + season + "_" + pol + "_" + product);
    assert k == [ToUpper(tile), ToUpper(season), ToUpper(pol), ToUpper(product)];
  }

  /** Keys that differ only in the case of their letters parse alike. */
  lemma ParseIgnoresCase(key: string)
    ensures ParseS3Key(ToLower(key)) == ParseS3Key(key)
  {
    UpperLower(key);
    assert KeyFields(ToLower(key)) == KeyFields(key);
  }

  /** A name with five fields fails to unpack, whatever the fields hold. */
  lemma FiveFieldsRejected(dir: string, a: string, b: string, c: string, d: string, e: string)
    requires '/' !in a && '/' !in b && '/' !in c && '/' !in d && '/' !in e
    requires '_' !in a && '_' !in b && '_' !in c && '_' !in d && '_' !in e
    ensures ParseS3Key(dir + "/" + a + "_" + b + "_" + c + "_" + d + "_" + e) == Failure(WrongPartCount(5))
  {
    var fs := [a, b, c, d, e];
    assert fs[1..] == [b, c, d, e];
    Fields4(b, c, d, e);
    assert Fields(fs) == a + "_" + (b + "_" + c + "_" + d + "_" + e);
    KeyFieldsOf(dir, fs);
    assert dir + "/" + a + "_" + b + "_" + c + "_" + d + "_" + e == dir + "/" + Fields(fs);
    assert |KeyFields(dir + "/" + a + "_" + b + "_" + c + "_" + d + "_" + e)| == 5;
  }
}
