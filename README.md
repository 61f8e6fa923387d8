# asf-stac core, modelled in Dafny

This project models the logic at the core of the ASF STAC tooling: the scripts that turn object-storage keys into STAC metadata, and the two scripts that push STAC objects into a STAC API that supports the Transaction extension.

- **Coherence tile names** (`TileGrid`, `Seasons`, `CoherenceItems`, `CoherenceStac`):
  - `tileid_to_bbox` decodes a tile id such as `S78W161` into a 1×1 integer box.
  - `parse_s3_key` upper-cases a bucket key and splits its file name on `_` into a yearly (3 fields) or a seasonal (4 fields) record. The season is looked up in the upper-case table `SEASON_DATE_RANGES`.
  - `parse_url` splits the stem of a url without changing case and looks the season up in the lower-case table `SEASONS`.
  - `construct_urls` formats object urls. The bucket's region is a parameter.
- **HAND items** (`HandItems`):
  - `create_stac_item` builds an item. Its id is the key's stem, its geometry is GDAL's `wgs84Extent` passed through, and its bbox is the polygon's bounds.
  - The data href is `urljoin(base, key)`, modelled as plain concatenation.
  - The remaining fields are constants.
- **Ingestion** (`StacIngest`, `IngestFiles`, `IngestTree`):
  - The endpoint is chosen by the object's `type`.
  - A 409 status is skipped; any other 4xx/5xx raises.
  - `main` of the collections ingester posts a list of files in order (`IngestFiles.IngestFiles`).
  - The tree ingester's `traverse` recurses over `child`/`item` links (`IngestTree.Traverse`).

How the model stands in for the program's surroundings:
- The file system is a map from path to parsed object.
- The API server is a response oracle: a function from the requests it already received and the new request to a status code.
- A run produces a log of posts (path, request, status) and an outcome: completed, or aborted with the exception that ended it.
- `Traverse` is proved equal to the recursive reference definition `Walk`. The promised properties are lemmas about `Walk`:
  - each post is faithful to the store and the server;
  - the first raise ends the run;
  - posting is pre-order, and children are visited in link order;
  - a completed walk posts every reachable object;
  - on a tree, each object is posted exactly once.

Python semantics written out in `Text`:
- `str.split` on one character, `str.join`, and `upper`/`lower` restricted to the ASCII letters (Python's Unicode case mapping is not modelled, see "## Left out");
- `int()` on ASCII text: surrounding whitespace, an optional sign, and digits with single underscores;
- clamped slices;
- `PurePosixPath` `name`, `stem` and `parent` (`stem` by the `rfind('.')` rule: a leading dot is not an extension).

Where the repository's tests and the code disagree, the model follows the code:
- The test of `parse_s3_key` (tests/test_create_coherence_items.py:133-138) expects the product `COH36` for `…_COH36.tif`, as if the extension were dropped.
- The code splits the upper-cased file name with its extension, so the product is `COH36.TIF`. The model (`CoherenceItems.ParseS3Key`) does the same.

## Model

| member | source | states |
|---|---|---|
| TileGrid.Slice | collections/sentinel-1-global-coherence/create_coherence_items.py:76 | a Python slice clamps out-of-range bounds: empty when it starts at or past the end, the rest of the string when only the end is past it, the plain subsequence otherwise |
| TileGrid.TileIdToBbox | collections/sentinel-1-global-coherence/create_coherence_items.py:74-86 | fails exactly when `int()` of characters 1–2 or 4–6 fails, latitude checked first; on success the id has at least 5 characters and the box is exactly 1 wide and 1 tall (the same function is at src/coherence_stac.py:52-63) |
| TileGrid.TileIdDecodes | collections/sentinel-1-global-coherence/create_coherence_items.py:76-85 | for every hemisphere pair and zero-padded latitude 0–99 and longitude 0–999, followed by anything, the decoded box is the unit cell south-east of the named corner; a non-`S`/`W` letter gives a non-negative coordinate |
| TileGrid.LatitudeLetter | src/coherence_stac.py:53-56 | two ids differing only in the latitude letter give the same box iff the latitude is 0 or both letters agree on being `S` |
| TileGrid.LongitudeLetter | src/coherence_stac.py:58-61 | two ids differing only in the longitude letter give the same box iff the longitude is 0 or both letters agree on being `W` |
| TileGrid.TileIdExampleN49E009 | tests/test_create_coherence_items.py:152-163 | `N49E009` decodes to `(9, 48, 10, 49)` |
| TileGrid.TileIdExampleN48W090 | tests/test_create_coherence_items.py:152-163 | `N48W090` decodes to `(-90, 47, -89, 48)` |
| TileGrid.TileIdExampleS01E012 | tests/test_create_coherence_items.py:152-163 | `S01E012` decodes to `(12, -2, 13, -1)` |
| TileGrid.TileIdExampleS78W161 | tests/test_create_coherence_items.py:152-163 | `S78W161` decodes to `(-161, -79, -160, -78)` |
| Text.ParseIntOfDigits | collections/sentinel-1-global-coherence/create_coherence_items.py:76 | `int()` of a run of digits with single `_` separators between digits is its decimal value, separators skipped |
| Text.ParseIntZeroPad | collections/sentinel-1-global-coherence/create_coherence_items.py:81 | `int()` of a zero-padded numeral gives back the number, so `int('090')` is 90 |
| Text.ParseInt | collections/sentinel-1-global-coherence/create_coherence_items.py:76-81 | `int()` succeeds only on text that is not blank, and gives a negative value only after a leading minus; its value on digit strings is pinned by `Text.ParseIntOfDigits` and `Text.ParseIntZeroPad` |
| Text.Split | collections/sentinel-1-global-coherence/create_coherence_items.py:49 | `split` on one character yields at least one part, none containing the separator |
| Text.SplitJoin | collections/sentinel-1-global-coherence/create_coherence_items.py:49 | splitting the join of separator-free fields gives back the fields |
| Text.JoinSplit | collections/sentinel-1-global-coherence/create_coherence_items.py:49 | joining the parts of a split gives back the string |
| Text.ToUpper | collections/sentinel-1-global-coherence/create_coherence_items.py:49 | upper-casing keeps the length and maps each character by ASCII case |
| Text.UpperLower | collections/sentinel-1-global-coherence/create_coherence_items.py:49 | upper-casing a lower-cased string is upper-casing the string |
| Text.PathComponents | ingest_data.py:36 | the components `PurePath` keeps: none is empty or `.`, and none contains a `/` |
| Text.PathName | collections/glo-30-hand/create_hand_items.py:52 | `PurePath.name` contains no `/`, is never `.`, and is empty exactly when the path has no component; `Text.NameAfterSlash` pins it for `a/b` |
| Text.StemOfName | collections/glo-30-hand/create_hand_items.py:52 | `PurePath.stem` is a prefix of the name, empty only for an empty name; it drops exactly the final suffix (a dot after the first character, followed by at least one character, with no dot after it), and nothing when the name ends in a dot or has no such dot |
| Text.NameAfterSlash | src/coherence_stac.py:67 | the path name of `prefix/key` is the name of `key` whenever `key` has a component, so a prefix cannot reach the stem |
| Text.StemOfFileName | collections/glo-30-hand/create_hand_items.py:52 | the stem of `base.ext` is `base` (no `/` in either, no `.` in the extension) |
| Seasons.NextDayOrdinal | collections/sentinel-1-global-coherence/create_coherence_items.py:8-13 | the day number of the calendar's next day is one more, across month and year ends and leap days |
| Seasons.DayOrdinal | collections/sentinel-1-global-coherence/create_coherence_items.py:8-13 | `date.toordinal` is at least 1, and is 1 exactly on 1 January of year 1; `Seasons.NextDayOrdinal` and `Seasons.Ordinals` pin the rest |
| Seasons.Ordinals | collections/sentinel-1-global-coherence/create_coherence_items.py:8-13 | the day numbers of the eight table dates |
| Seasons.SeasonLengths | collections/sentinel-1-global-coherence/create_coherence_items.py:8-13 | the table dates are valid, and the windows last 89, 91, 91 and 90 days: twice the midpoint half-widths the repository's test expects; 2020 is a leap year |
| Seasons.SeasonsInOrder | collections/sentinel-1-global-coherence/create_coherence_items.py:8-13 | the windows follow each other winter, spring, summer, fall without overlapping, 365 days from first to last day |
| Seasons.TablesAgree | src/coherence_stac.py:29-34 | `SEASONS` is `SEASON_DATE_RANGES` with lower-case keys, in both directions |
| CoherenceItems.KeyFields | collections/sentinel-1-global-coherence/create_coherence_items.py:49 | the fields of a key are at least one, none containing `_` |
| CoherenceItems.ParseS3Key | collections/sentinel-1-global-coherence/create_coherence_items.py:47-70 | succeeds iff there are 3 or 4 fields, the tile decodes and a 4-field season is an upper-case table key; the fields and the bbox of the result; errors in unpack → tile → season order |
| CoherenceItems.UpperFields | collections/sentinel-1-global-coherence/create_coherence_items.py:49 | upper-casing a `_`-joined name upper-cases each field |
| CoherenceItems.KeyFieldsOf | collections/sentinel-1-global-coherence/create_coherence_items.py:49 | the fields of `dir/name` are the fields of the name, upper-cased, whatever the directory |
| CoherenceItems.ParseS3KeyYearly | collections/sentinel-1-global-coherence/create_coherence_items.py:50-57 | a 3-field key gives `{bbox, tileid, product}` upper-cased, the orbit field dropped and the product keeping its extension |
| CoherenceItems.ParseS3KeySeasonal | collections/sentinel-1-global-coherence/create_coherence_items.py:58-69 | a 4-field key gives bbox, tileid, product, date range, season and polarization upper-cased, iff the upper-cased season is a table key |
| CoherenceItems.ParseIgnoresCase | collections/sentinel-1-global-coherence/create_coherence_items.py:49 | a key and its lower-cased form parse identically |
| CoherenceItems.FiveFieldsRejected | collections/sentinel-1-global-coherence/create_coherence_items.py:59 | a name with five fields fails to unpack |
| CoherenceStac.UrlFields | src/coherence_stac.py:67 | the fields of a url's stem are at least one, none containing `_` |
| CoherenceStac.AssetOf | src/coherence_stac.py:66-76 | succeeds iff 3 or 4 fields, the tile decodes and a 4-field season is a lower-case key; url echoed, product, bbox, polarization and window; errors in unpack → tile → season order |
| CoherenceStac.ParseUrl | src/coherence_stac.py:66-76 | the url is echoed unchanged in every result |
| CoherenceStac.UrlFieldsOf | src/coherence_stac.py:67 | the stem fields of `prefix/F1_…_Fn.ext` are exactly `F1 … Fn`, case unchanged |
| CoherenceStac.ParseUrlYearly | src/coherence_stac.py:68-71 | a 3-field url gives `{url, bbox, product}` with the extension gone and the orbit dropped |
| CoherenceStac.ParseUrlSeasonal | src/coherence_stac.py:73-76 | a 4-field url gives url, bbox, product, window and polarization, no season name, iff the season is exactly a lower-case key |
| CoherenceStac.SeasonCaseDiffers | src/coherence_stac.py:75 | an upper-case season name is rejected by `parse_url` and accepted as seasonal by `parse_s3_key` |
| CoherenceStac.UpperSeasonKey | collections/sentinel-1-global-coherence/create_coherence_items.py:58-62 | `parse_s3_key` accepts a 4-field key whose season is already an upper-case table key as seasonal |
| CoherenceStac.UpperOfUpperSeason | src/coherence_stac.py:29-34 | the upper-case season names are not `SEASONS` keys |
| CoherenceStac.ConstructUrls | src/coherence_stac.py:37-40 | as many urls as keys, element i being `https://{bucket}.s3.{location}.amazonaws.com/{keys[i]}` |
| CoherenceStac.ObjectUrl | src/coherence_stac.py:39 | the f-string url starts with `https://` and ends with the key itself; `CoherenceStac.ConstructedUrlParses` shows the host part cannot reach the stem |
| CoherenceStac.ConstructUrlsAppend | src/coherence_stac.py:39 | the urls of concatenated key lists are the concatenated url lists (order is kept) |
| CoherenceStac.ConstructedUrlParses | src/coherence_stac.py:39 | a constructed url parses like its key, only the `url` field differing |
| HandItems.MinOf | collections/glo-30-hand/create_hand_items.py:68 | the minimum is at most every coordinate and is one of them |
| HandItems.MaxOf | collections/glo-30-hand/create_hand_items.py:68 | the maximum is at least every coordinate and is one of them |
| HandItems.ShapeBounds | collections/glo-30-hand/create_hand_items.py:68 | there are bounds iff the exterior ring has a point |
| HandItems.BoundsAreEnvelope | collections/glo-30-hand/create_hand_items.py:68 | the bounds enclose every point of the exterior ring and each edge touches one |
| HandItems.BoundsAreSmallest | collections/glo-30-hand/create_hand_items.py:68 | every box enclosing the ring contains the bounds |
| HandItems.CreateStacItem | collections/glo-30-hand/create_hand_items.py:51-71 | the item's id is the key's stem, geometry passed through, single `data` asset with href `base + key` and GeoTIFF type, bbox the geometry's bounds, null datetime, no extensions, collection `glo-30-hand`, type Feature, version 1.0.0 |
| HandItems.HrefStemIsId | collections/glo-30-hand/create_hand_items.py:52-64 | the stem of the item's href is the item's id |
| HandItems.ItemBboxEnclosesGeometry | collections/glo-30-hand/create_hand_items.py:61-68 | the bbox encloses the geometry's exterior ring tightly |
| HandItems.ItemIdOfFileKey | collections/glo-30-hand/create_hand_items.py:52 | a key `dirs/NAME.ext` gives the id `NAME` |
| HandItems.RectangleEncloses | collections/glo-30-hand/create_hand_items.py:68 | a box encloses the ring of the rectangle it spans |
| HandItems.TightBoxIsBounds | collections/glo-30-hand/create_hand_items.py:68 | a box that encloses the outer ring and touches it on all four sides is its bounds |
| HandItems.RectangleBounds | collections/glo-30-hand/create_hand_items.py:68 | the bounds of a closed rectangular tile extent are its south-west and north-east corners |
| StacIngest.GetEndpoint | collections/ingest_data.py:27-33 | `/collections` iff the type is Catalog or Collection; an items endpoint iff a Feature with a collection; otherwise the missing type, unsupported type or missing collection (also ingest_data.py:42-46) |
| StacIngest.EndpointNamesCollection | ingest_data.py:44-46 | the collection named by an endpoint is the Feature's own `collection` field, and none for a catalog or collection |
| StacIngest.CheckForPost | collections/ingest_data.py:36-38 | an object without `id` is rejected before anything else, otherwise the endpoint is chosen as above |
| StacIngest.ResponseAction | ingest_data.py:51-54 | skip iff 409, raise iff another 4xx/5xx, posted otherwise (also collections/ingest_data.py:41-44) |
| StacIngest.Requests | collections/ingest_data.py:39 | the requests of a log, one per post, in order |
| StacIngest.FaithfulAppend | collections/ingest_data.py:57-60 | two faithful logs, the second taken after the first, make a faithful log |
| IngestFiles.IngestFiles | collections/ingest_data.py:54-60 | one post per file in command-line order, each faithful to the store's object, the chosen endpoint and the server's answer; a raise is the last post and the outcome; completed iff all files posted without a raise; otherwise the next file is the unreadable or rejected one |
| IngestTree.Parent | ingest_data.py:30 | the parent drops the last component, and a path without components is its own parent |
| IngestTree.ParsePath | ingest_data.py:66 | `Path(s)` is rooted exactly when `s` starts with `/`, and its components are well formed |
| IngestTree.ParsePathString | ingest_data.py:66 | writing a well-formed path out and parsing it gives the path back |
| IngestTree.JoinPathWellFormed | ingest_data.py:36 | `parent_path / href` (`IngestTree.JoinPath`) keeps well-formed paths well formed, and is rooted exactly when the directory is or the href starts with `/` |
| IngestTree.JoinIsConcat | ingest_data.py:36 | joining a relative href to the path of a non-empty string is parsing the two strings with a `/` between them |
| IngestTree.JoinedParent | ingest_data.py:36 | a relative one-component href resolves to a path whose parent is the directory it was joined to |
| IngestTree.GetChildPaths | ingest_data.py:34-38 | a path is in the result iff it is some `child`/`item` link's href joined to the directory |
| IngestTree.GetChildPathsAppend | ingest_data.py:35-37 | the result for two link lists is the concatenation of their results (link order is kept) |
| IngestTree.Traverse | ingest_data.py:23-31 | the log and outcome of `traverse` are those of the reference walk `Walk`, on every store whose links strictly lower some rank |
| IngestTree.WalkSeqAbortStays | ingest_data.py:30-31 | once a child's walk aborts, the remaining children are not walked |
| IngestTree.WalkFaithful | ingest_data.py:41-49 | every post of a walk is the stored object at its path, at the endpoint its type selects, answered as the server answers after all earlier requests |
| IngestTree.WalkSeqFaithful | ingest_data.py:30-31 | the same for the loop over children |
| IngestTree.WalkStopsAtRaise | ingest_data.py:51-54 | only the last post of a walk can raise; if it does, the walk aborts with its status; an HTTP-error abort always comes from it |
| IngestTree.WalkSeqStopsAtRaise | ingest_data.py:30-31 | the same for the loop over children |
| IngestTree.CompletedNoneRaise | ingest_data.py:51-54 | a completed walk saw no error status, and a server that never returns one cannot make a walk abort with an HTTP error |
| IngestTree.WalkPreOrder | ingest_data.py:27-31 | the walk from `p` posts `p` first, and every later post is a child of an object posted before it |
| IngestTree.WalkSeqPreOrder | ingest_data.py:30-31 | every post of the loop is one of the children, or a child of an object posted before it |
| IngestTree.WalkSeqFront | ingest_data.py:30-31 | the loop walks the first child to its end, then, if nothing failed, the remaining children after it |
| IngestTree.WalkCovers | ingest_data.py:5-7 | a walk posts only reachable paths, a completed walk posts every reachable path, and an unreadable-file abort names a reachable path missing from the store |
| IngestTree.WalkSeqCovers | ingest_data.py:30-31 | the same for the loop over children |
| IngestTree.DescRank | ingest_data.py:5-7 | no reachable path ranks above the path it is reached from (the acyclicity precondition at work) |
| IngestTree.WalkOnce | ingest_data.py:5-7 | on a tree, no path is posted twice, whatever the outcome |
| IngestTree.WalkSeqOnce | ingest_data.py:30-31 | on a tree, the loop over children posts no path twice |
| IngestTree.LastApart | ingest_data.py:30-31 | on a tree, the last child's subtree shares no path with its siblings' subtrees, and the earlier siblings stay pairwise apart |
| IngestTree.ExactlyOnce | ingest_data.py:23-31 | on a tree, a completed walk posts every reachable object exactly once: the posted paths are the reachable set and the log is as long as that set |

## Left out

- I/O and libraries:
  - File reading and `json.load` are a lookup in the store. A missing or malformed file is the `Unreadable` failure.
  - `requests.post` and the server are the response oracle.
  - `print`, `argparse`, boto3/S3 (`get_object_urls`, `get_s3_url`, the region lookup in `construct_urls`), GDAL (`gdal_info`), `write_stac_items` and `jsonify_stac_item` are not modelled, because they are I/O or wrap a JSON encoder.
- StacIngest.Responder: transport errors are not modelled. When `requests.post` raises `ConnectionError` or `Timeout`, either ingester stops without a status; the oracle always answers with a status code, and `IngestError` has no case for this.
- `create_stac_item` of the coherence generator is not modelled. It calls an undefined `get_url` and reads a `season` that yearly records lack.
- `urljoin(api_url, endpoint)` and `ServerSession`'s prefixing are not modelled: endpoints are kept as the path strings. These are library behaviour.
- HandItems.CreateStacItem: requires a plain base url ending in `/` and a plain relative key, for which `urljoin` is concatenation. Other urls are not modelled: dot or empty segments, queries, fragments, absolute keys, a tab, carriage return or line feed (which `urlsplit` deletes), a leading control character or space (which it strips), a key with a `;` (`urlparse` cuts `;params` off the last segment before dot segments are resolved, and `urlunparse` drops empty ones), and a base with brackets or non-ASCII characters (whose host `urlsplit` may reject).
- HandItems.HrefStemIsId: holds on the same plain inputs only. For a key with a tab, for example, Python's `urljoin` removes the tab from the href but not from the id.
- HandItems.ShapeBounds: only polygons are modelled, and bounds come from the exterior ring. Shapely's ring validation, other geometry types and the NaN bounds of an empty polygon (modelled as no bbox) are library behaviour.
- Text.ToUpper: maps the ASCII letters `a`–`z` only. Python's `str.upper` also maps other letters: `ſ` becomes `S`, `ı` becomes `I`, and `ß` becomes the two characters `SS`, so the Python result can differ in content and in length.
- Text.UpperLower: holds for the ASCII mapping only. In Python, `'İ'.lower()` is two characters, and upper-casing them does not give back `İ`.
- CoherenceItems.ParseS3Key: upper-cases the key by the ASCII mapping, so a key with a non-ASCII letter can parse differently from Python. For example, Python turns `ſ78W161` into the southern tile `S78W161`, and finds the season `wınter` as `WINTER`; the model reads `ſ78W161` as northern and rejects `wınter`.
- CoherenceItems.ParseIgnoresCase: holds for the ASCII mapping only. Python parses a key containing `İ` differently from its lower-cased form.
- Text.ParseInt: accepts ASCII digits and ASCII whitespace only. Python's `int()` also takes other Unicode digits and spaces.
- IngestTree.ParsePath: a path beginning with exactly two slashes is treated as `/`. `PurePosixPath` keeps `//` as a distinct root.
- Paths are compared as components. `..` is kept as a component and the file system never resolves it, so two spellings of one file are two paths.
- Links always carry `rel` and `href`. A link missing either, which raises `KeyError` in `get_child_paths`, is not modelled.
- Cyclic link graphs are excluded by the `Ranked` precondition. On a cycle, the program recurses until Python's recursion limit.
- Concurrency and timing of the server are not modelled. The oracle's answer depends only on earlier requests and the new one.
