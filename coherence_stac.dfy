/** The asset side of the coherence catalog: object URLs built from bucket
    keys, and `parse_url`, which reads a URL's file stem without changing its
    case and looks a season up in the lower-case season table. */
module CoherenceStac {
  import opened Results
  import opened Text
  import opened TileGrid
  import opened Seasons
  import CoherenceItems

  /** The dictionary `parse_url` returns, by its two shapes; the seasonal one
      carries no season name. */
  datatype Asset =
    | YearlyAsset(url: string, bbox: Box, product: string)
    | SeasonalAsset(url: string, bbox: Box, product: string, dateRange: DateRange, polarization: string)

  /** `Path(url).stem.split('_')`. */
  function UrlFields(url: string): (parts: seq<string>)
    ensures |parts| >= 1
    ensures forall i :: 0 <= i < |parts| ==> '_' !in parts[i]
  {
    Split(Stem(url), '_')
  }

  /** `parse_url`, given the fields of the url's stem. Three fields are tried
      first; anything else must unpack into four. */
  function AssetOf(url: string, parts: seq<string>): (r: Result<Asset, NameError>)
    requires |parts| >= 1
    ensures r.Success? <==> && (|parts| == 3 || |parts| == 4)
                            && TileIdToBbox(parts[0]).Success?
                            && (|parts| == 4 ==> parts[1] in SeasonWindows)
    ensures r.Success? ==> && r.value.url == url
                           && r.value.product == parts[|parts| - 1]
                           && TileIdToBbox(parts[0]) == Success(r.value.bbox)
                           && (r.value.YearlyAsset? <==> |parts| == 3)
    ensures r.Success? && r.value.SeasonalAsset? ==>
              r.value.polarization == parts[2] && r.value.dateRange == SeasonWindows[parts[1]]
    ensures r.Failure? ==>
              if |parts| != 3 && |parts| != 4 then r.error == WrongPartCount(|parts|)
              else if TileIdToBbox(parts[0]).Failure? then r.error == BadTileId(TileIdToBbox(parts[0]).error)
              else r.error == UnknownSeason(parts[1])
  {
    if |parts| == 3 then
      match TileIdToBbox(parts[0])
      case Failure(e) => Failure(BadTileId(e))
      case Success(bbox) => Success(YearlyAsset(url, bbox, parts[2]))
    else if |parts| != 4 then Failure(WrongPartCount(|parts|))
    else
      match TileIdToBbox(parts[0])
      case Failure(e) => Failure(BadTileId(e))
      case Success(bbox) =>
        if parts[1] in SeasonWindows then
          Success(SeasonalAsset(url, bbox, parts[3], SeasonWindows[parts[1]], parts[2]))
        else Failure(UnknownSeason(parts[1]))
  }

  /** `parse_url`: the url itself is echoed back unchanged. */
  function ParseUrl(url: string): (r: Result<Asset, NameError>)
    ensures r.Success? ==> r.value.url == url
  {
    AssetOf(url, UrlFields(url))
  }

  /** An object url, as `construct_urls` formats each key. */
  function ObjectUrl(bucket: string, location: string, key: string): (url: string)
    ensures |url| >= 8 + |key| && url[..8] == "https://"
    ensures url[|url| - |key|..] == key
  {
    "https://" + bucket + ".s3." + location + ".amazonaws.com/" + key
  }

  /** `construct_urls`, with the bucket's region passed in. */
  function ConstructUrls(bucket: string, location: string, keys: seq<string>): (urls: seq<string>)
    ensures |urls| == |keys|
    ensures forall i :: 0 <= i < |keys| ==> urls[i] == ObjectUrl(bucket, location, keys[i])
  {
    seq(|keys|, i requires 0 <= i < |keys| => ObjectUrl(bucket, location, keys[i]))
  }

  /** The parse of `url` is the parse of any other path with the same stem,
      with its `url` field replaced. */
  function WithUrl(r: Result<Asset, NameError>, url: string): Result<Asset, NameError>
  {
    match r
    case Failure(e) => Failure(e)
    case Success(a) => Success(a.(url := url))
  }

  /** A constructed object url parses as its key does: the host part cannot
      reach the stem, as long as the key has a path component. */
  lemma ConstructedUrlParses(bucket: string, location: string, keys: seq<string>, i: nat)
    requires i < |keys| && PathComponents(keys[i]) != []
    ensures var urls := ConstructUrls(bucket, location, keys);
            ParseUrl(urls[i]) == WithUrl(ParseUrl(keys[i]), urls[i])
  {
    var host := "https://" + bucket + ".s3." + location + ".amazonaws.com";
    var url := ObjectUrl(bucket, location, keys[i]);
    assert url == host + "/" + keys[i];
    NameAfterSlash(host, keys[i]);
  }

  /** Concatenating two key lists concatenates their url lists. */
  lemma ConstructUrlsAppend(bucket: string, location: string, a: seq<string>, b: seq<string>)
    ensures ConstructUrls(bucket, location, a + b) == ConstructUrls(bucket, location, a) + ConstructUrls(bucket, location, b)
  {
    var l, r := ConstructUrls(bucket, location, a), ConstructUrls(bucket, location, b);
    assert forall i :: 0 <= i < |a + b| ==> ConstructUrls(bucket, location, a + b)[i] == (l + r)[i];
  }

  /** A file name `FIELDS.ext` in some directory: its stem's fields. */
  lemma UrlFieldsOf(prefix: string, fs: seq<string>, ext: string)
    requires |fs| >= 2 && ext != [] && '/' !in ext && '.' !in ext
    requires forall i :: 0 <= i < |fs| ==> '_' !in fs[i] && '/' !in fs[i]
    ensures UrlFields(prefix + "/" + CoherenceItems.Fields(fs) + "." + ext) == fs
  {
    var base := CoherenceItems.Fields(fs);
    CoherenceItems.NoSlashInFields(fs);
    assert base == fs[0] + "_" + Join(fs[1..], '_');
    assert base != [];
    StemOfFileName(base, ext);
    assert prefix + "/" + base + "." + ext == prefix + "/" + (base + "." + ext);
    NameAfterSlash(prefix, base + "." + ext);
    SplitJoin(fs, '_');
  }

  lemma YearlyName(prefix: string, tile: string, orbit: string, product: string, ext: string)
    ensures prefix + "/" + tile + "_" + orbit + "_" + product + "." + ext
         == prefix + "/" + CoherenceItems.Fields([tile, orbit, product]) + "." + ext
  {
    CoherenceItems.Fields3(tile, orbit, product);
  }

  lemma SeasonalName(prefix: string, tile: string, season: string, pol: string, product: string, ext: string)
    ensures prefix + "/" + tile + "_" + season + "_" + pol + "_" + product + "." + ext
         == prefix + "/" + CoherenceItems.Fields([tile, season, pol, product]) + "." + ext
  {
    CoherenceItems.Fields4(tile, season, pol, product);
  }

  lemma ParseUrlOfFields(url: string, fs: seq<string>)
    requires UrlFields(url) == fs
    ensures |fs| >= 1 && ParseUrl(url) == AssetOf(url, fs)
  {
  }

  /** A yearly url `…/TILE_ORBIT_PRODUCT.ext`: the extension is gone from the
      product, no case is changed, and the orbit is dropped. */
  lemma ParseUrlYearly(prefix: string, tile: string, orbit: string, product: string, ext: string)
    requires ext != [] && '/' !in ext && '.' !in ext
    requires '/' !in tile && '/' !in orbit && '/' !in product
    requires '_' !in tile && '_' !in orbit && '_' !in product
    ensures var url := prefix + "/" + tile + "_" + orbit + "_" + product + "." + ext;
            ParseUrl(url) ==
              match TileIdToBbox(tile)
              case Success(bbox) => Success(YearlyAsset(url, bbox, product))
              case Failure(e) => Failure(BadTileId(e))
  {
    var url := prefix + "/" + tile + "_" + orbit + "_" + product + "." + ext;
    var fs := [tile, orbit, product];
    YearlyName(prefix, tile, orbit, product, ext);
    UrlFieldsOf(prefix, fs, ext);
    ParseUrlOfFields(url, fs);
  }

  /** A seasonal url `…/TILE_SEASON_POL_PRODUCT.ext`: the season must be one
      of the lower-case keys, exactly. */
  lemma ParseUrlSeasonal(prefix: string, tile: string, season: string, pol: string, product: string, ext: string)
    requires ext != [] && '/' !in ext && '.' !in ext
    requires '/' !in tile && '/' !in season && '/' !in pol && '/' !in product
    requires '_' !in tile && '_' !in season && '_' !in pol && '_' !in product
    ensures var url := prefix + "/" + tile + "_" + season + "_" + pol + "_" + product + "." + ext;
            ParseUrl(url) ==
              match TileIdToBbox(tile)
              case Failure(e) => Failure(BadTileId(e))
              case Success(bbox) =>
                if season in SeasonWindows
                then Success(SeasonalAsset(url, bbox, product, SeasonWindows[season], pol))
                else Failure(UnknownSeason(season))
  {
    var url := prefix + "/" + tile + "_" + season + "_" + pol + "_" + product + "." + ext;
    var fs := [tile, season, pol, product];
    SeasonalName(prefix, tile, season, pol, product, ext);
    UrlFieldsOf(prefix, fs, ext);
    ParseUrlOfFields(url, fs);
  }

  /** The two parsers disagree on case: an upper-case season such as `WINTER`
      is found by `parse_s3_key`, which upper-cases first, and rejected by
      `parse_url`, which does not. */
  lemma SeasonCaseDiffers(prefix: string, tile: string, season: string, pol: string, product: string, ext: string)
    requires ext != [] && '/' !in ext && '.' !in ext && '_' !in ext
    requires '/' !in tile && '/' !in season && '/' !in pol && '/' !in product
    requires '_' !in tile && '_' !in season && '_' !in pol && '_' !in product
    requires TileIdToBbox(tile).Success? && ToUpper(tile) == tile
    requires season in SeasonDateRanges
    ensures var url := prefix + "/" + tile + "_" + season + "_" + pol + "_" + product + "." + ext;
            && ParseUrl(url) == Failure(UnknownSeason(season))
            && CoherenceItems.ParseS3Key(url).Success?
            && CoherenceItems.ParseS3Key(url).value.Seasonal?
  {
    UpperOfUpperSeason(season);
    ParseUrlSeasonal(prefix, tile, season, pol, product, ext);
    UpperSeasonKey(prefix, tile, season, pol, product, ext);
  }

  lemma UpperSeasonKey(prefix: string, tile: string, season: string, pol: string, product: string, ext: string)
    requires '/' !in ext && '_' !in ext
    requires '/' !in tile && '/' !in season && '/' !in pol && '/' !in product
    requires '_' !in tile && '_' !in season && '_' !in pol && '_' !in product
    requires TileIdToBbox(tile).Success? && ToUpper(tile) == tile
    requires ToUpper(season) == season && season in SeasonDateRanges
    ensures var url := prefix + "/" + tile + "_" + season + "_" + pol + "_" + product + "." + ext;
            CoherenceItems.ParseS3Key(url).Success? && CoherenceItems.ParseS3Key(url).value.Seasonal?
  {
    var last := product + "." + ext;
    assert '/' !in last && '_' !in last;
    assert prefix + "/" + tile + "_" + season + "_" + pol + "_" + product + "." + ext
        == prefix + "/" + tile + "_" + season + "_" + pol + "_" + last;
    CoherenceItems.ParseS3KeySeasonal(prefix, tile, season, pol, last);
  }

  /** The upper-case season names are fixed by upper-casing and are not
      lower-case table keys. */
  lemma UpperOfUpperSeason(season: string)
    requires season in SeasonDateRanges
    ensures ToUpper(season) == season && season !in SeasonWindows
  {
    assert ToUpper("WINTER") == "WINTER";
    assert ToUpper("SPRING") == "SPRING";
    assert ToUpper("SUMMER") == "SUMMER";
    assert ToUpper("FALL") == "FALL";
  }
}
