# london-bet decision pipeline in Dafny

This project models how the London temperature bet of WeatherXM's
weather-bets is resolved from station telemetry, and proves properties of
that model. Each row of a telemetry file is one reading: the station
(`name`), its hardware `model`, its H3 `cell_id`, its `public_key`, the
signed packet (`ws_packet_b64`) and its signature (`ws_packet_sig`),
scores, and a `temperature`.

The resolver runs three stages over each frame, each of which only removes rows:

1. **Region.** A row is kept when its cell id is one of the cells that cover the
   London boundary at H3 resolution 7. The boundary's coordinates are swapped
   into a GeoJSON polygon before `h3.polyfill` runs (`Location`).
2. **Quality.** A row is kept when it passes `has_verified_metrics` (`Resolver.Env.quality`).
3. **Signature.** The row's model code picks a scheme:
   - `m5` is ECDSA P-256 over the packet's base64 text.
   - `helium` is ECDSA P-256 over the decoded packet.
   - `d1` is RSA PKCS#1 v1.5 over the SHA-256 digest of the ASCII packet.

   A row is kept when its scheme returns True. An unknown model or a scheme
   that raises drops that row only (`Signatures`).

`load_df` runs the filter once over the whole file, or once per parquet row
group and then concatenates the results (low-memory mode). `decide` takes the
mean temperature of each device, then the mean of those means
(`Aggregation`). The validator variant reads no `model` column. Its filter has
no signature stage, and its whole-file mode returns the rows unfiltered
(`Validator`).

Module layout:
- Building blocks for the source's library behaviour:
  - `Wrappers`: Option, Result, and a map that stops at the first error.
  - `Positional`: digit values.
  - `Encoding`: `int(s, 16)`, `int.from_bytes(b, "big")`, UTF-8 and ASCII
    encoding, Python slicing.
  - `Selection`: `df.loc[...]` and `pd.concat`.
  - `Devices`: distinct names in first-seen order.
  - `Averages`: sums and means.
  - `Records`: the row.
- One module per core source file: `Signatures`, `Location`, `Resolver`,
  `Validator`.

The cryptographic calls, base64url decoding, `h3.polyfill` and the quality
test are parameters: fields of `Signatures.Primitives`, `Location.Region`,
`Resolver.Env` and `Validator.Env`. The model states exactly which characters
and bytes each scheme hands to them.

Behaviour of the code that the model keeps:
- An empty surviving frame gives pandas' NaN, modelled as `Ok(None)`; it is
  not an error.
- The resolver's `filter` raises a division by zero when no row of a frame is
  in the region. In low-memory mode one such row group aborts the whole load,
  so the two modes agree only when the chunked load succeeds.
- The resolver filters every row group with all three stages, signatures included.
- The validator's whole-file mode returns the rows unfiltered; only its
  low-memory mode applies the region and quality filter.
- `int(s, 16)` reads upper- and lower-case hex digits alike.
- Keys and signatures are sliced, not length-checked. In the ECDSA schemes
  (`m5`, `helium`) key characters past 128 and signature bytes past 64 are
  ignored. `d1` hands the whole decoded signature to the RSA check and reads
  every key character past 512 as the exponent.
- An ECDSA signature shorter than 64 bytes gives smaller r and s: its missing
  bytes count as absent, and no bytes read as 0.
- An EC key of 65 to 127 characters gives a y read from fewer digits.
- An EC key of at most 64 characters and an RSA key of at most 512 characters
  raise, because the empty string is not a hex number.

## Model

| member | source | states |
|---|---|---|
| Wrappers.MapResult | london-bet/resolver/decision/__init__.py:16-34 | processing row groups in order succeeds iff every group succeeds, giving one result per group in order; otherwise the error is that of the first failing group |
| Wrappers.MapResultPrefix | london-bet/resolver/decision/__init__.py:16-34 | once a prefix of row groups fails, later groups do not change the outcome |
| Positional.ValueOfDigits | london-bet/resolver/data/algo.py:14-15 | writing a number below base^width as width digits and reading them back gives the number |
| Positional.DigitsOfValue | london-bet/resolver/data/algo.py:14-15 | reading a digit string and writing it back at the same width gives the same digits |
| Encoding.Slice | london-bet/resolver/data/algo.py:8-9 | Python slicing clamps both bounds to the sequence: the length is min(hi, n) - lo when positive, and element i is s[lo + i] |
| Encoding.ParseHex | london-bet/resolver/data/algo.py:8-9 | `int(s, 16)` succeeds iff s is a non-empty string of hex digits, and its value is below 16^len(s) |
| Encoding.ParseHexIgnoresCase | london-bet/resolver/data/algo.py:8-9 | `int(s, 16)` gives the same result for a string and its lower-case form, and a hex string's lower-case form is all lower-case digits, so with HexStringOfParse every hex string's value is fixed |
| Encoding.SliceFrom | london-bet/resolver/data/algo.py:51 | Python's `s[lo:]` has length len(s) - lo, or 0 when lo is past the end, and element i is s[lo + i] |
| Encoding.ParseHexString | london-bet/resolver/data/algo.py:8-9 | parsing the lower-case hex rendering of v at a width that fits v gives v back |
| Encoding.HexStringOfParse | london-bet/resolver/data/algo.py:8-9 | a lower-case hex string is the rendering, at its own length, of the value it parses to |
| Encoding.BigEndian | london-bet/resolver/data/algo.py:14-15 | `int.from_bytes(b, "big")` is below 256^len(b) |
| Encoding.BigEndianOfBytes | london-bet/resolver/data/algo.py:14-15 | writing v as width big-endian bytes and reading them gives v whenever v fits |
| Encoding.BytesOfBigEndian | london-bet/resolver/data/algo.py:14-15 | reading bytes big-endian and writing the value at the same width gives the bytes back |
| Encoding.Utf8Encode | london-bet/resolver/data/algo.py:20 | `bytes(s, "utf-8")` is at least as long as the text and at most four times as long |
| Encoding.AsciiEncode | london-bet/resolver/data/algo.py:56 | `s.encode("ascii")` succeeds iff every character is below 128, and then byte i is character i's code |
| Encoding.AsciiIsUtf8 | london-bet/resolver/data/algo.py:56 | for ASCII text the ASCII and UTF-8 encodings coincide |
| Selection.Select | london-bet/resolver/location/algo.py:53 | a row is in `df.loc[pred]` iff it is in the frame and satisfies the predicate; the result is no longer than the frame |
| Selection.Mask | london-bet/resolver/data/algo.py:96 | `df.loc[mask]` keeps exactly the rows whose mask entry is True, and is no longer than the frame |
| Selection.MaskIsSelect | london-bet/resolver/data/algo.py:96 | `df.loc[mask]` with a mask that agrees with a predicate row by row equals selecting by that predicate |
| Selection.SelectIsSubsequence | london-bet/resolver/location/algo.py:53 | a selection keeps rows unchanged and in their original order |
| Selection.SelectConcat | london-bet/resolver/decision/__init__.py:33-35 | selecting from two frames joined end to end is joining the two selections |
| Selection.SelectSkip | london-bet/resolver/data/algo.py:90-94 | a row that fails the predicate leaves the selection of the rows around it unchanged |
| Selection.SelectSelect | london-bet/resolver/decision/__init__.py:43-49 | selecting by p and then by q is one selection by p and q |
| Selection.SelectIdempotent | london-bet/resolver/location/algo.py:53 | applying the same selection twice is applying it once |
| Selection.SelectKeepsAllIff | london-bet/validator/decision/__init__.py:33-34 | a selection returns the whole frame iff every row satisfies the predicate |
| Selection.SelectFlatten | london-bet/resolver/decision/__init__.py:33-35 | `pd.concat` of per-group selections is the selection of the concatenated groups |
| Selection.Flatten | london-bet/resolver/decision/__init__.py:35 | a row is in the concatenation iff it is in one of the frames |
| Devices.Distinct | london-bet/resolver/data/algo.py:83-84 | the devices list holds exactly the names seen, without duplicates, in the order of first appearance |
| Devices.DistinctSnoc | london-bet/resolver/data/algo.py:83-84 | one more row extends the devices list by its name exactly when the name is new |
| Devices.DistinctSize | london-bet/resolver/data/algo.py:95 | the length of the devices list is the number of distinct names |
| Averages.MeanOf | london-bet/resolver/decision/__init__.py:57-58 | `Series.mean()` of a non-empty column times its length is the column's sum |
| Averages.MeanOfConstant | london-bet/resolver/decision/__init__.py:57-58 | the mean of a column holding one value throughout is that value |
| Averages.SumOfPermutation | london-bet/resolver/decision/__init__.py:58 | a sum does not depend on the order of its terms |
| Averages.MeanOfBounds | london-bet/resolver/decision/__init__.py:58 | a mean of values in [lo, hi] lies in [lo, hi] |
| Records.Names | london-bet/resolver/decision/__init__.py:44 | the `name` column has one entry per row, the row's name |
| Aggregation.DeviceNames | london-bet/resolver/decision/__init__.py:57 | the devices with at least one surviving row, each once: exactly the names in the frame, each with a non-empty group, which are the groups whose means reach the decision |
| Aggregation.ReadingsOf | london-bet/resolver/decision/__init__.py:57 | a row is in a device's group iff it is in the frame and has that name, and the group keeps frame order |
| Aggregation.ReadingsNonEmpty | london-bet/resolver/decision/__init__.py:57 | every device that appears in the frame has at least one reading to average |
| Aggregation.DeviceMean | london-bet/resolver/decision/__init__.py:57 | a device's mean is taken over at least one reading and lies between its lowest and highest reading |
| Aggregation.MeanOfMeans | london-bet/resolver/decision/__init__.py:57-58 | the mean of per-device means is defined iff the frame has rows |
| Aggregation.MeanOfMeansExample | london-bet/resolver/decision/__init__.py:57-58 | readings 10 and 20 from one device and 30 from another give 22.5, each device weighted equally |
| Aggregation.MeanOfMeansPermutation | london-bet/resolver/decision/__init__.py:57-58 | the decision does not depend on the order of the rows |
| Aggregation.MeanOfMeansBounds | london-bet/resolver/decision/__init__.py:57-58 | when every temperature is in [lo, hi], so is the decision |
| Aggregation.MeanOfMeansWithinRange | london-bet/resolver/decision/__init__.py:57-58 | the decision lies between the lowest and the highest surviving temperature |
| Signatures.Dispatch | london-bet/resolver/data/algo.py:69-75 | WS1000 and WS1001 select `m5`, WS2000 and WS2001 `helium`, WG1200 `d1`, and every other or missing model nothing |
| Signatures.HexWord | london-bet/resolver/data/algo.py:8-9 | at most 64 hex characters parse iff non-empty hex, to a value below 2^256 |
| Signatures.ByteWord | london-bet/resolver/data/algo.py:14-15 | at most 32 bytes read big-endian are below 2^256, and no bytes read as 0 |
| Signatures.HexModulus | london-bet/resolver/data/algo.py:50 | at most 512 hex characters parse iff non-empty hex, to a value below 2^2048 |
| Signatures.ParseEcKey | london-bet/resolver/data/algo.py:8-9 | the key parses iff it is longer than 64 characters and its first 128 characters are hex; x is the value of characters [0, 64) and y of [64, 128), each below 2^256 |
| Signatures.ParseEcSignature | london-bet/resolver/data/algo.py:12-16 | r is the big-endian value of bytes [0, 32) and s of bytes [32, 64), clamped to the signature's length; each is below 2^256, and a signature of at most 32 bytes has s = 0 |
| Signatures.ParseRsaKey | london-bet/resolver/data/algo.py:50-51 | the key parses iff it is longer than 512 characters and all hex, so a key of at most 512 characters raises; n is the value of the first 512 characters, below 2^2048, and e the value of the rest |
| Signatures.M5Verify | london-bet/resolver/data/algo.py:7-25 | raises iff the key or signature does not decode; returns True iff ECDSA accepts the UTF-8 bytes of the packet text |
| Signatures.HeliumVerify | london-bet/resolver/data/algo.py:28-46 | raises iff the key, signature or packet does not decode; returns True iff ECDSA accepts the decoded packet bytes |
| Signatures.D1Verify | london-bet/resolver/data/algo.py:49-67 | a key of at most 512 characters raises; True iff the RSA key builds, the signature decodes, the packet is ASCII and PKCS#1 v1.5 accepts the SHA-256 digest of its ASCII bytes |
| Signatures.RowVerified | london-bet/resolver/data/algo.py:82-94 | a row is verified iff its model has a scheme and that scheme returns True: ECDSA over the packet's UTF-8 bytes for `m5`, over the base64url-decoded packet for `helium`, and the RSA check for `d1`; an unknown model is never verified |
| Signatures.CheckRow | london-bet/resolver/data/algo.py:82-94 | a row's mask entry is True iff its model has a scheme and the scheme returns True; an unknown model gives False |
| Signatures.Verify | london-bet/resolver/data/algo.py:77-96 | the kept rows are exactly the verified rows in their original order, and devices is the distinct names of all input rows in first-seen order |
| Signatures.MaskOfVerdicts | london-bet/resolver/data/algo.py:96 | one verdict per row, applied as a mask, selects the verified rows |
| Signatures.UnsupportedModelDropped | london-bet/resolver/data/algo.py:85-88 | a row whose model has no scheme is never kept |
| Signatures.RejectionIsLocal | london-bet/resolver/data/algo.py:90-94 | a rejected or raising row removes only itself; the rows before and after are kept as they would be without it |
| Signatures.EcKeyIgnoresTail | london-bet/resolver/data/algo.py:8-9 | characters of the key past 128 do not change the parsed point |
| Signatures.EcKeyRoundTrip | london-bet/resolver/data/algo.py:8-9 | a 128-digit lower-case key is x and y written as 64 hex digits each |
| Signatures.RsaKeyRoundTrip | london-bet/resolver/data/algo.py:50-51 | a lower-case key longer than 512 digits is n written as 512 hex digits followed by e written in the remaining digits |
| Signatures.EcSignatureIgnoresTail | london-bet/resolver/data/algo.py:14-15 | signature bytes past 64 do not change r and s |
| Signatures.EcSignatureRoundTrip | london-bet/resolver/data/algo.py:14-15 | a 64-byte signature is r and s written as 32 big-endian bytes each |
| Signatures.SchemesDifferOnlyInMessage | london-bet/resolver/data/algo.py:20-41 | `m5` and `helium` give the same verdict whenever the decoded packet equals the packet's UTF-8 text |
| Location.SwapCoordinates | london-bet/resolver/location/algo.py:25 | each exterior pair (a, b) becomes (b, a), with count and order kept |
| Location.SwapCoordinatesTwice | london-bet/resolver/location/algo.py:25 | swapping twice gives the coordinates back |
| Location.SwapCoordinatesInjective | london-bet/resolver/location/algo.py:25 | different boundaries give different swapped rings |
| Location.GeoJsonOf | london-bet/resolver/location/algo.py:26-29 | the GeoJSON has type "Polygon" and exactly one ring, the swapped exterior |
| Location.CellsFromPolygon | london-bet/resolver/location/algo.py:24-31 | the cells are the polyfill, at the given resolution, of a one-ring "Polygon" GeoJSON whose ring, swapped back, is the boundary |
| Location.CellsAreFixed | london-bet/resolver/location/algo.py:45-52 | the cell set is the polyfill of that GeoJSON at resolution 7, the same for a given boundary on every call |
| Location.GeoFilter | london-bet/resolver/location/algo.py:51-53 | a row is kept iff it is in the frame and its cell id is in the cell set |
| Location.GeoFilterSubsequence | london-bet/resolver/location/algo.py:53 | kept rows are input rows, unchanged and in order |
| Location.GeoFilterIdempotent | london-bet/resolver/location/algo.py:53 | filtering twice is filtering once |
| Location.GeoFilterConcat | london-bet/resolver/location/algo.py:53 | filtering two frames joined end to end is joining their filtered frames |
| Resolver.DeviceCount | london-bet/resolver/decision/__init__.py:44 | the number of distinct names is 0 iff the frame is empty |
| Resolver.DeviceCountSubset | london-bet/resolver/decision/__init__.py:52 | rows drawn from a frame name no more distinct devices than the frame |
| Resolver.StagesCompose | london-bet/resolver/decision/__init__.py:42-49 | region, then quality, then signature equals one selection by the conjunction of the three tests |
| Resolver.FilterSpec | london-bet/resolver/decision/__init__.py:42-53 | filter raises division by zero iff no row is in the region; otherwise it keeps exactly the rows passing all three stages |
| Resolver.Participation | london-bet/resolver/decision/__init__.py:52 | the participation percentage lies in [0, 100] and is 0 iff no row survives |
| Resolver.Filter | london-bet/resolver/decision/__init__.py:42-53 | running the stages, with `verify`'s loop, gives the filter's result, and the percentage when it succeeds |
| Resolver.FilterSubsequence | london-bet/resolver/decision/__init__.py:42-49 | the output is a subsequence of the quality stage, which is one of the region stage, which is one of the input |
| Resolver.FilterMembership | london-bet/resolver/decision/__init__.py:42-49 | a row survives iff it is in the frame, in the region, passes quality and its signature verifies |
| Resolver.FilterGroups | london-bet/resolver/decision/__init__.py:16-34 | filtering row groups succeeds iff every group has a row in the region, and then gives each group's surviving rows in order |
| Resolver.FilterGroupsSnoc | london-bet/resolver/decision/__init__.py:33-34 | filtering one more row group that passes appends its filtered frame to the processed chunks |
| Resolver.ChunkedStops | london-bet/resolver/decision/__init__.py:16-33 | one row group with no row in the region makes the low-memory load raise division by zero |
| Resolver.LoadChunked | london-bet/resolver/decision/__init__.py:12-35 | the low-memory load fails iff the file has no row groups or some row group has no row in the region |
| Resolver.LoadSpec | london-bet/resolver/decision/__init__.py:11-40 | whenever `load_df` succeeds, in either mode, it gives the rows of the file passing region, quality and signature, in file order; the whole-file mode fails iff no row is in the region, the low-memory mode iff there are no row groups or one has no row in the region |
| Resolver.LoadDf | london-bet/resolver/decision/__init__.py:11-40 | the loop over row groups gives the chunked load; the whole-file branch filters all rows once |
| Resolver.ModesAgree | london-bet/resolver/decision/__init__.py:33-39 | when the chunked load succeeds, filtering the whole file gives the same rows |
| Resolver.DecideSpec | london-bet/resolver/decision/__init__.py:55-59 | decide fails iff the load fails, and has a value iff some row survives |
| Resolver.Decide | london-bet/resolver/decision/__init__.py:55-59 | loading then averaging gives the decision |
| Resolver.DecisionIndependentOfMode | london-bet/resolver/decision/__init__.py:55-58 | when the chunked load succeeds, both modes give the same decision |
| Resolver.DecisionWithinReadings | london-bet/resolver/decision/__init__.py:57-58 | the decision lies between the lowest and highest surviving temperature |
| Validator.Project | london-bet/validator/decision/__init__.py:16-17 | a row read without the model column has no model and is otherwise the same row |
| Validator.Projected | london-bet/validator/decision/__init__.py:16-17 | projection keeps one row per row, in order |
| Validator.Filter | london-bet/validator/decision/__init__.py:37-40 | filter is one selection by region and quality, and its output is a subsequence of its input |
| Validator.FilteredGroups | london-bet/validator/decision/__init__.py:14-31 | one filtered, projected frame per row group, in file order |
| Validator.FilteredGroupsSnoc | london-bet/validator/decision/__init__.py:30-31 | one more row group appends its filtered frame |
| Validator.LoadChunked | london-bet/validator/decision/__init__.py:11-32 | the low-memory load fails iff the file has no row groups; otherwise it is the projected rows of the file passing region and quality, in order, none with a model |
| Validator.FilteredIsSelected | london-bet/validator/decision/__init__.py:14-32 | filtering each projected row group and concatenating is filtering the projected file |
| Validator.LoadSpec | london-bet/validator/decision/__init__.py:10-35 | the whole-file mode returns every projected row unfiltered; the low-memory mode fails iff there are no row groups and otherwise returns the projected rows passing region and quality; no loaded row has a model |
| Validator.LoadDf | london-bet/validator/decision/__init__.py:10-35 | the loop over row groups gives the chunked load; the whole-file branch returns the projected rows unfiltered |
| Validator.ProjectedFlatten | london-bet/validator/decision/__init__.py:32-34 | projecting each row group then concatenating is projecting the concatenation |
| Validator.ChunkedIsFilteredWhole | london-bet/validator/decision/__init__.py:10-35 | the chunked load is the whole-file load with the region and quality filter applied |
| Validator.ModesAgreeIff | london-bet/validator/decision/__init__.py:32-34 | the two modes give the same rows iff every row is in the region and passes quality |
| Validator.DecideSpec | london-bet/validator/decision/__init__.py:42-46 | decide fails iff low-memory mode meets a file with no row groups, and has a value iff some row is loaded |
| Validator.Decide | london-bet/validator/decision/__init__.py:42-46 | the decision is determined by the file, the filter and the mode; `algo`, `lat` and `lon` do not reach it |

## Left out

- Aggregation.DeviceNames: keeps only names that have surviving rows. In the source `groupby('name', observed=False)` on the categorical `name` column (the low-memory load casts it to `category`) also yields a group for every category no surviving row carries, with an empty group and a NaN mean; the final `Series.mean()` skips NaN, so the decision is the same.
- The cryptography is not modelled. ECDSA P-256 verification, `encode_dss_signature`, RSA PKCS#1 v1.5 verification with a prehashed digest, SHA-256 and key construction are library calls. They are fields of `Signatures.Primitives`, given as parameters.
- base64url decoding is the parameter `urlsafeB64Decode`: it returns `None` where `urlsafe_b64decode` raises.
- `h3.polyfill` is the parameter `Location.Region.polyfill`.
- `h3.h3_to_geo_boundary`, geopandas, shapely, matplotlib and contextily are left out: they are foreign geospatial and plotting libraries.
- `visualize_h3_cells_on_map` and `plt_london` are left out: they only plot.
- `get_outer_boundary` and `initialize_london_boundary` are left out: they are HTTP and file I/O.
- The import-time read of the boundary file (london-bet/resolver/location/algo.py:8-9) is left out. That read yields a string, which the code then uses as a polygon. The model instead takes the boundary as a `Polygon` value in `Location.Region`.
- `weather.has_verified_metrics` is the parameter `quality`: its source is not part of this model. Its log line describes it as qod ≥ 0.8 and pol == 1.
- Parquet reading is left out: `read_pandas`, `ParquetFile` and `read_row_group`. A file is its sequence of row groups, and whole-file reading sees their rows end to end.
- The `astype` downcasts are left out: float32, int8 and categorical columns. Temperatures are exact reals, so float32 rounding and NaN propagation are not modelled.
- `pd.concat(..., ignore_index=True)` renumbers the index. Index labels are not modelled.
- All `print` output is left out: device counts, completion messages, the unsupported-bundle message and the rounded percentage. `Resolver.Filter` returns the unrounded percentage instead, and `Signatures.Verify` returns the devices list.
- Both `runner.py` files are left out. They are HTTP fetches, downloads, environment variables, file deletion and prints.
- `london-bet/resolver/main.py` is left out: it is argument parsing. It calls `decide` with five arguments, which is the validator's signature, not the resolver's.
- Encoding.ParseHex: accepts only plain hex digits. Python's `int(s, 16)` also accepts surrounding whitespace, a sign, a `0x` prefix and underscores between digits. Keys in those forms are rejected here, where the source would parse them.
- Signatures.Verify: every column value is assumed to be a string, so missing values (NaN in a categorical column) are not modelled. In the source a missing key or signature raises a type error in every scheme, and so does a missing packet under `m5` and `helium`; the row is dropped. Under `d1` a missing packet does not raise: `str` turns it into the text "nan" or "None", whose digest goes to the RSA check.
- Aggregation.MeanOfMeans: sums the device means in first-seen order, while `groupby` sorts device names. The two sums are equal (`Averages.SumOfPermutation`).
