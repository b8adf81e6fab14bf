# Lawn-area polygon map: session state and GeoJSON helpers in Dafny

This project models the logic of a map where a user outlines lawn areas as polygons:

- **`PolygonSession`** (`polygon_session.dfy`) models the state of the `Map` component. That state has two parts:
  - the ordered list of drawn polygons, each a record `{id, path, area}`;
  - the drawing manager's mode: `'polygon'` while a new outline is being drawn, `null` while the stored shapes can be edited.

  The module also models the handlers that change this state: completing a drawn polygon, editing one, clearing all, entering drawing mode and clicking the map. It also covers the values the view derives from the state: whether the clear button is hidden, whether polygons are editable, and the helper text for each mode. Each handler is a pure transition on the current state. A sequence of events is folded with `Run`.
- **`GeoJson`** (`geo_json.dfy`) models three helpers:
  - the bounding box of a `MultiPolygon` or `LineString` geometry;
  - the `LineString` geometry built from URL bounds;
  - the mapping of a feature collection to scatter-plot points.

  A position is a JavaScript array `[longitude, latitude]` of any length. Reading an ordinate that is not there yields `undefined`, and `Math.min`/`Math.max` turn that into `NaN`. So the bounds are `Number = Real(v) | NaN`.
- **`CoordinateIds`** (`coordinate_ids.dfy`) models `createCoordinateBasedId`. The id is the base key `<lat>_<lng>`, then `-`, then the number of store keys that match the regular expression `^<base>`. The base goes into the expression unescaped, so each `.` in it matches any one character except a line terminator (`\n`, `\r`, U+2028, U+2029), since the expression has no `s` flag.

How JavaScript turns a latitude or longitude into a string is a parameter (`show`). The suffix count is a non-negative integer and is written out in decimal (`NatToString`). The model proves:
- an id that is added to the store raises the next suffix by exactly one;
- starting from an empty store, generating an id and adding it, over and over, gives pairwise distinct ids.

The second result rests on an invariant (`SuffixesBelowCount`). `CollisionOutsideInvariant` shows that the invariant is needed. If the store holds `1_2-1` alone, the generator hands out `1_2-1` again.

The polygon area is a foreign geodesic routine plus rounding, so it is the parameter `area: Path -> int`. The model never looks inside it. The random id a completed polygon gets is a parameter of the completion.

Three behaviours of the code are worth stating plainly, because a stricter store would behave differently:
- Completing a polygon has no mode guard. It also appends while the mode is already `null`.
- `editPolygon` does not reject an id that is not in the list. It filters the id out and appends a new record, so an unknown id adds a record. A known id's record moves to the end of the list.
- The clear button is hidden when the list is empty or the mode is `'polygon'`.

## Model

| member | source | states |
|---|---|---|
| PolygonSession.InitialState | src/App.js:120-124 | The session starts with no polygons in drawing mode, so the clear button is hidden and no shape is editable |
| PolygonSession.HandleCompletedPolygon | src/App.js:130-150 | Completion appends exactly one record `{id, path, area(path)}` after the unchanged earlier records and sets the mode to `null` whatever it was; the id's count rises by one |
| PolygonSession.AddControlledPolygon | src/App.js:140-150 | The list grows by one, its old prefix is kept and the new last record carries the given id, the path and the path's area |
| PolygonSession.CompletionEntersEditing | src/App.js:130-134 | After any completion the shapes are editable and the clear button is shown, since the list is non-empty and the mode is `null` |
| PolygonSession.Without | src/App.js:160 | The filter keeps exactly the records whose id differs, as a subsequence in original order, and drops as many records as carried the id |
| PolygonSession.EditPolygon | src/App.js:157-163 | After an edit exactly one record carries the id and it is the last, with the new path and its area; the records with other ids are the same and in the same order as before; the mode is unchanged |
| PolygonSession.EditLength | src/App.js:159-162 | Editing an absent id grows the list by one, and editing an id present once keeps its length |
| PolygonSession.WithoutKeepsDistinct | src/App.js:160 | Filtering a list with distinct ids leaves distinct ids |
| PolygonSession.CompletionKeepsDistinct | src/App.js:144-149 | A completion with a fresh id keeps ids pairwise distinct |
| PolygonSession.EditKeepsDistinct | src/App.js:159-162 | An edit keeps ids pairwise distinct, whether or not the id was present |
| PolygonSession.TransitionsKeepAreasCurrent | src/App.js:140-169 | Every handler keeps each record's area equal to the area of its path |
| PolygonSession.RunKeepsInvariant | src/App.js:130-180 | After any event sequence whose completion ids are fresh, ids are distinct and no area is stale |
| PolygonSession.ClearPolygons | src/App.js:166-169 | Clearing from any state yields the initial state: no polygons, mode `'polygon'` |
| PolygonSession.ClearIdempotent | src/App.js:166-175 | Clearing twice equals clearing once, and after a clear the button is hidden and nothing is editable |
| PolygonSession.EnterDrawingMode | src/App.js:175 | Entering drawing mode sets `'polygon'` and leaves the list untouched |
| PolygonSession.MapClick | src/App.js:180 | A click on the map sets `'polygon'` and leaves the list untouched |
| PolygonSession.DerivedViews | src/App.js:219-239 | The clear button shows exactly when the list is non-empty and the mode is `null`; shapes are editable exactly when the mode is `null` |
| PolygonSession.HelperTextFor | src/App.js:66-69 | The lookup by a mode's property key (`"polygon"` or `"null"`) finds a non-empty entry for either mode |
| PolygonSession.HelperTextTotal | src/App.js:214 | Both mode keys are in the helper-text table and the two modes show different texts |
| PolygonSession.DrawEditClear | src/App.js:130-169 | Draw, edit and clear: the edit keeps the id and holds the new path's area, and the clear returns to the initial state |
| GeoJson.Ordinate | src/util/geoJson.js:108 | Reading an ordinate gives a number exactly when the position has that index, otherwise `NaN` |
| GeoJson.Min | src/util/geoJson.js:108 | `Math.min` is a number exactly when both arguments are; it is below both and equal to one |
| GeoJson.Max | src/util/geoJson.js:109 | `Math.max` is a number exactly when both arguments are; it is above both and equal to one |
| GeoJson.ConcatReduceIsConcat | src/util/geoJson.js:86-94 | The `reduce`/`concat` flattening pass equals the accumulator followed by the in-order concatenation |
| GeoJson.ConcatMembership | src/util/geoJson.js:86-89 | An element is in a flattened list exactly when it is in one of the parts |
| GeoJson.MultiPolygonCoordinates | src/util/geoJson.js:82-95 | A multi-polygon flattens to all rings of all polygons in order; the length is the sum of ring lengths, and a position occurs exactly when some ring holds it |
| GeoJson.ReduceMin | src/util/geoJson.js:108-113 | The minimum fold is a number exactly when the seed is and every position has the axis; it is then at most every ordinate and attained |
| GeoJson.ReduceMax | src/util/geoJson.js:109-114 | The maximum fold is a number exactly when the seed is and every position has the axis; it is then at least every ordinate and attained |
| GeoJson.BoundsOf | src/util/geoJson.js:101-115 | The result is `{}` exactly when there is no position or the first is empty; each latitude bound is a number exactly when every position has a latitude, and likewise for longitude |
| GeoJson.BoundingBoxFor | src/util/geoJson.js:76-116 | A geometry whose type is neither `MultiPolygon` nor `LineString` gives `{}`, and `{}` occurs exactly when the flattened list is empty or its first position is |
| GeoJson.BoundsOfIsTight | src/util/geoJson.js:106-115 | For well-formed positions the box encloses every position, each bound is attained, and min is at most max on both axes |
| GeoJson.ShortPositionGivesNaN | src/util/geoJson.js:107-109 | A position without a latitude makes both latitude bounds `NaN` |
| GeoJson.GeometryForUrlBounds | src/util/geoJson.js:63-68 | The URL bounds become a `LineString` whose flattened positions are the bounds themselves |
| GeoJson.UrlBoundsBoundingBox | src/util/geoJson.js:97-98 | The box of URL bounds is taken over the bounds directly: it encloses them and each bound is attained |
| GeoJson.UrlBoundsExample | src/util/geoJson.js:97-115 | The bounds `[[-105.10,39.74],[-105.00,39.80]]` give latitudes 39.74..39.80 and longitudes -105.10..-105.00 |
| GeoJson.MapGeoJsonToScatterPlot | src/util/geoJson.js:44-56 | There is one point per feature, in order, each with radius 50, colour `[255,0,0]`, the feature's coordinates as position, and the feature in its metadata |
| GeoJson.ScatterPlotRoundTrip | src/util/geoJson.js:49-55 | The metadata of the points gives back the feature list exactly |
| CoordinateIds.NatToString | src/util/geoJson.js:141 | The suffix is a non-empty string of decimal digits with no leading zero; it starts with `0` only for zero |
| CoordinateIds.ParseNatToString | src/util/geoJson.js:141 | Reading the decimal suffix back gives the count |
| CoordinateIds.MatchingKeys | src/util/geoJson.js:135-139 | The filter keeps exactly the store keys that match `^base`, with `.` matching any character but a line terminator |
| CoordinateIds.MatchCount | src/util/geoJson.js:137-141 | The suffix is at most the number of keys, and it is zero exactly when no key matches |
| CoordinateIds.NextId | src/util/geoJson.js:133-141 | The id is the base, `-`, then the decimal count of matching keys without leading zeros; the id itself matches `^base` |
| CoordinateIds.CreateCoordinateBasedId | src/util/geoJson.js:127-144 | The id starts with `<lat>_<lng>-` and ends with a decimal suffix, without leading zeros, that reads back as the number of matching keys, which is at most the number of keys |
| CoordinateIds.MatchCountInsert | src/util/geoJson.js:137-139 | Adding a key never lowers a count; adding a new matching key raises it by exactly one |
| CoordinateIds.NextSuffix | src/util/geoJson.js:135-141 | After a generated id that was not yet a key is stored, the same coordinates get the next suffix |
| CoordinateIds.SplitAtLastDash | src/util/geoJson.js:141 | An id determines its base and suffix, because the suffix has no `-` |
| CoordinateIds.GeneratedIdIsFresh | src/util/geoJson.js:133-141 | When every suffix is below its base's count, the generated id is not yet a key, and storing it keeps the invariant |
| CoordinateIds.GenerateAllDistinct | src/util/geoJson.js:133-141 | Repeated generate-and-insert from such a store (the empty store is one) gives pairwise distinct ids, none already a key |
| CoordinateIds.FirstAndSecondId | src/util/geoJson.js:133-141 | `39.74_-105.1` gets suffix 0 on an empty store and suffix 1 once that id is stored |
| CoordinateIds.DotMatchesAnyCharacter | src/util/geoJson.js:135 | Base `1.5_2` matches key `105_2-0`, so that key counts towards the suffix |
| CoordinateIds.DotSkipsLineTerminator | src/util/geoJson.js:135-139 | Base `1.5_2` does not match key `1\n5_2-0`, so that key does not count and the suffix stays 0 |
| CoordinateIds.CollisionOutsideInvariant | src/util/geoJson.js:137-141 | With only `1_2-1` stored, the point (1, 2) is given `1_2-1` again |

## Left out

- `getAreaFromCoords` is not modelled. It calls a geodesic area routine and rounds the result. The model uses the parameter `area`. Floating point, sign and rounding behaviour are therefore not modelled.
- `getCoordsFromPolygon` is left out. So are the path listeners and `onEdit`/`onLoad` in `src/Polygon.js`. They read widget path objects and manage listeners. The model receives paths as sequences.
- `uuid()` is randomness. A completion's id is a parameter.
- `polygon.setMap(null)` is left out. It removes the drawn widget shape and changes no modelled state.
- `centerMap` is left out. It pans the map, which is I/O.
- The `lottieOpen` dialog flag is left out. It is presentation state.
- Rendering code is not modelled: `MapControlsWrapper`, the portal, `MapContainer`, and the files `src/MapLottie.js`, `src/controls.js` and `src/index.js`.
- React closure semantics are not modelled: stale `polygons` captured by a handler, and batching of state updates. Each handler acts on the current state.
- Coordinates are `real`. Non-numeric input, `NaN` coordinates and float ordering are not modelled. The one exception is the `NaN` that comes from reading a missing ordinate.
- PolygonSession.EditPolygon: the edit lemmas assume nothing about how the widget assigns ids. Records that carry `id` more than once are all replaced by one record. This matches the filter.
- GeoJson.MapGeoJsonToScatterPlot: a feature's geometry is a point holding one position. The source copies `geometry.coordinates` whatever its shape.
- CoordinateIds.MatchingKeys: matches a string one Dafny `char` (a Unicode scalar value) at a time. The regular expression works on UTF-16 code units, so for a key with a character outside the Basic Multilingual Plane a `.` takes only half of it. Keys made by this generator hold digits, `.`, `-`, `_` and letters of number renderings, so this never arises for them.
- CoordinateIds.MatchesAnchored treats `.` as the only regular-expression metacharacter in the base key. A rendering with `+` (exponent form such as `1e+21`) would act as a quantifier in the source. Coordinates are never printed that way.
- CoordinateIds.CreateCoordinateBasedId takes the number-to-string conversion for latitude and longitude as the parameter `show`. It does not reproduce JavaScript's shortest round-trip formatting.
