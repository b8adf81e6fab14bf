/** The polygon session kept by the `Map` component: an ordered list of drawn
    polygons together with the drawing manager's mode, the event handlers that
    change them, and the values the view derives from them.

    Each handler is modelled as a synchronous pure transition on the current
    state. The area of a path is computed by a foreign geodesic routine followed
    by rounding; the model takes it as a parameter `area` and never looks inside
    it. The random identifier a completed polygon receives is likewise a
    parameter of the completion event. */
module PolygonSession {

  /** A vertex as reported by the drawing widget. */
  datatype Coordinate = Coordinate(lat: real, lng: real)

  type Path = seq<Coordinate>

  /** One polygon of the working set: its identifier, its vertex path and the
      area (square metres, rounded) computed from that path when it was stored. */
  datatype PolygonRecord = PolygonRecord(id: string, path: Path, area: int)

  /** The drawing manager's mode: the string 'polygon' while a new outline is
      being captured, JavaScript `null` while the stored shapes are editable. */
  datatype DrawingMode = Polygon | Null

  datatype MapState = MapState(polygons: seq<PolygonRecord>, drawingMode: DrawingMode)

  /** Both pieces of state as the component creates them. */
  const Initial: MapState := MapState([], Polygon)

  // ---------------------------------------------------------------------------
  // Helpers over the record list

  /** The number of records carrying `id`. */
  function CountId(ps: seq<PolygonRecord>, id: string): nat
  {
    if |ps| == 0 then 0
    else (if ps[0].id == id then 1 else 0) + CountId(ps[1..], id)
  }

  predicate HasId(ps: seq<PolygonRecord>, id: string)
  {
    exists i :: 0 <= i < |ps| && ps[i].id == id
  }

  /** No two records of the list share an identifier. */
  predicate DistinctIds(ps: seq<PolygonRecord>)
  {
    forall i, j :: 0 <= i < j < |ps| ==> ps[i].id != ps[j].id
  }

  /** Every record's cached area is the one `area` gives for its path. */
  predicate AreasCurrent(ps: seq<PolygonRecord>, area: Path -> int)
  {
    forall i :: 0 <= i < |ps| ==> ps[i].area == area(ps[i].path)
  }

  /** `a` can be obtained from `b` by deleting elements: it keeps the relative
      order of the elements it retains. */
  predicate IsSubsequence<T(==)>(a: seq<T>, b: seq<T>)
    decreases |b|
  {
    if |a| == 0 then true
    else if |b| == 0 then false
    else (a[0] == b[0] && IsSubsequence(a[1..], b[1..])) || IsSubsequence(a, b[1..])
  }

  /** `polygons.filter((p) => p.id !== id)`. */
  function Without(ps: seq<PolygonRecord>, id: string): (r: seq<PolygonRecord>)
    ensures forall p :: p in r <==> p in ps && p.id != id
    ensures |r| == |ps| - CountId(ps, id)
    ensures CountId(r, id) == 0
    ensures IsSubsequence(r, ps)
  {
    if |ps| == 0 then []
    else if ps[0].id != id then [ps[0]] + Without(ps[1..], id)
    else Without(ps[1..], id)
  }

  lemma {:induction false} CountIdPositive(ps: seq<PolygonRecord>, id: string)
    ensures CountId(ps, id) > 0 <==> HasId(ps, id)
    decreases |ps|
  {
    if |ps| > 0 {
      CountIdPositive(ps[1..], id);
      if HasId(ps, id) && ps[0].id != id {
        var i :| 0 <= i < |ps| && ps[i].id == id;
        assert ps[1..][i - 1].id == id;
      }
      if HasId(ps[1..], id) {
        var i :| 0 <= i < |ps[1..]| && ps[1..][i].id == id;
        assert ps[i + 1].id == id;
      }
    }
  }

  lemma {:induction false} CountIdAppend(a: seq<PolygonRecord>, b: seq<PolygonRecord>, id: string)
    ensures CountId(a + b, id) == CountId(a, id) + CountId(b, id)
    decreases |a|
  {
    if |a| > 0 {
      assert (a + b)[1..] == a[1..] + b;
      CountIdAppend(a[1..], b, id);
    } else {
      assert a + b == b;
    }
  }

  lemma {:induction false} WithoutAppend(a: seq<PolygonRecord>, b: seq<PolygonRecord>, id: string)
    ensures Without(a + b, id) == Without(a, id) + Without(b, id)
    decreases |a|
  {
    if |a| > 0 {
      assert (a + b)[0] == a[0];
      assert (a + b)[1..] == a[1..] + b;
      WithoutAppend(a[1..], b, id);
      if a[0].id != id {
        calc {
          Without(a + b, id);
          [a[0]] + Without(a[1..] + b, id);
          [a[0]] + (Without(a[1..], id) + Without(b, id));
          ([a[0]] + Without(a[1..], id)) + Without(b, id);
        }
      }
    } else {
      assert a + b == b;
    }
  }

  /** Filtering out an id no record carries changes nothing. */
  lemma {:induction false} WithoutAbsent(ps: seq<PolygonRecord>, id: string)
    requires CountId(ps, id) == 0
    ensures Without(ps, id) == ps
    decreases |ps|
  {
    if |ps| > 0 {
      WithoutAbsent(ps[1..], id);
      assert ps == [ps[0]] + ps[1..];
    }
  }

  /** Filtering keeps the identifiers of the list distinct. */
  lemma {:induction false} WithoutKeepsDistinct(ps: seq<PolygonRecord>, id: string)
    requires DistinctIds(ps)
    ensures DistinctIds(Without(ps, id))
    decreases |ps|
  {
    if |ps| > 0 {
      assert DistinctIds(ps[1..]) by {
        forall i, j | 0 <= i < j < |ps[1..]| ensures ps[1..][i].id != ps[1..][j].id {
          assert ps[1..][i] == ps[i + 1] && ps[1..][j] == ps[j + 1];
        }
      }
      WithoutKeepsDistinct(ps[1..], id);
      if ps[0].id != id {
        var rest := Without(ps[1..], id);
        forall q | q in rest ensures q.id != ps[0].id {
          var k :| 0 <= k < |ps[1..]| && ps[1..][k] == q;
          assert ps[k + 1] == q;
        }
      }
    }
  }

  /** Filtering out the id of `rec` and appending `rec` leaves exactly one
      record with that id and every other record as it was. */
  lemma ReplaceAtEnd(ps: seq<PolygonRecord>, rec: PolygonRecord)
    ensures var r := Without(ps, rec.id) + [rec];
            && CountId(r, rec.id) == 1
            && Without(r, rec.id) == Without(ps, rec.id)
            && r[..|r| - 1] == Without(ps, rec.id)
            && (forall p :: p in r && p.id != rec.id <==> p in ps && p.id != rec.id)
  {
    var kept := Without(ps, rec.id);
    var r := kept + [rec];
    CountIdAppend(kept, [rec], rec.id);
    assert CountId([rec], rec.id) == 1;
    assert CountId(r, rec.id) == 1;
    WithoutAppend(kept, [rec], rec.id);
    assert Without([rec], rec.id) == [];
    WithoutAbsent(kept, rec.id);
    assert Without(r, rec.id) == kept;
    assert r[..|kept|] == kept;
    forall p ensures p in r && p.id != rec.id <==> p in ps && p.id != rec.id {
      assert p in r <==> p in kept || p == rec;
    }
  }

  // ---------------------------------------------------------------------------
  // Event handlers

  /** `addControlledPolygonToMap`: the record built from the drawn path, with
      the caller-supplied identifier, is appended to the list. */
  function AddControlledPolygon(ps: seq<PolygonRecord>, id: string, path: Path, area: Path -> int)
    : (r: seq<PolygonRecord>)
    ensures |r| == |ps| + 1
    ensures r[..|ps|] == ps
    ensures r[|ps|].id == id && r[|ps|].path == path && r[|ps|].area == area(path)
  {
    ps + [PolygonRecord(id, path, area(path))]
  }

  /** `handleCompletedPolygon`: store the drawn polygon, then switch the drawing
      manager to editing. There is no guard on the current mode. */
  function HandleCompletedPolygon(s: MapState, id: string, path: Path, area: Path -> int): (r: MapState)
    ensures r.drawingMode == Null
    ensures |r.polygons| == |s.polygons| + 1
    ensures forall i :: 0 <= i < |s.polygons| ==> r.polygons[i] == s.polygons[i]
    ensures r.polygons[|s.polygons|] == PolygonRecord(id, path, area(path))
    ensures CountId(r.polygons, id) == CountId(s.polygons, id) + 1
  {
    CountIdAppend(s.polygons, [PolygonRecord(id, path, area(path))], id);
    MapState(AddControlledPolygon(s.polygons, id, path, area), Null)
  }

  /** `editPolygon`: drop every record carrying `id` and append a new record
      for the edited path. An unknown `id` is not rejected. */
  function EditPolygon(s: MapState, path: Path, id: string, area: Path -> int): (r: MapState)
    ensures r.drawingMode == s.drawingMode
    ensures |r.polygons| > 0
    ensures r.polygons[|r.polygons| - 1] == PolygonRecord(id, path, area(path))
    ensures CountId(r.polygons, id) == 1
    ensures Without(r.polygons, id) == Without(s.polygons, id)
    ensures IsSubsequence(r.polygons[..|r.polygons| - 1], s.polygons)
    ensures forall p :: p in r.polygons && p.id != id <==> p in s.polygons && p.id != id
    ensures |r.polygons| == |s.polygons| - CountId(s.polygons, id) + 1
  {
    var kept := Without(s.polygons, id);
    var edited := PolygonRecord(id, path, area(path));
    ReplaceAtEnd(s.polygons, edited);
    MapState(kept + [edited], s.drawingMode)
  }

  /** `enterDrawingMode`: the drawing manager captures a new outline. */
  function EnterDrawingMode(s: MapState): (r: MapState)
    ensures r.drawingMode == Polygon
    ensures r.polygons == s.polygons
  {
    s.(drawingMode := Polygon)
  }

  /** A click on the map background calls `enterDrawingMode`. */
  function MapClick(s: MapState): (r: MapState)
    ensures r.drawingMode == Polygon
    ensures r.polygons == s.polygons
  {
    EnterDrawingMode(s)
  }

  /** `clearPolygons`: empty the list and re-arm drawing. */
  function ClearPolygons(s: MapState): (r: MapState)
    ensures r == Initial
  {
    EnterDrawingMode(s.(polygons := []))
  }

  // ---------------------------------------------------------------------------
  // Derived values

  /** JavaScript truthiness of the mode: 'polygon' is truthy, null is not. */
  predicate Truthy(m: DrawingMode)
  {
    m == Polygon
  }

  /** `polygons.length === 0 || Boolean(drawingMode)`. */
  predicate HideClearButton(s: MapState)
  {
    |s.polygons| == 0 || Truthy(s.drawingMode)
  }

  /** `!drawingMode`. */
  predicate PolygonsEditable(s: MapState)
  {
    !Truthy(s.drawingMode)
  }

  /** The property key a JavaScript object lookup uses for a mode value:
      the string itself, or "null" for `null`. */
  function ModeKey(m: DrawingMode): string
  {
    match m
    case Polygon => "polygon"
    case Null => "null"
  }

  const HelperText: map<string, string> := map[
    "polygon" := "Connect last point to the first to complete shape",
    "null" := "Tap to add to lawn area. Press and hold points to move"
  ]

  /** `HELPER_TEXT[drawingMode]`: the banner text shown for the mode. */
  function HelperTextFor(m: DrawingMode): (t: string)
    ensures ModeKey(m) in HelperText && t == HelperText[ModeKey(m)]
    ensures |t| > 0
  {
    HelperText[ModeKey(m)]
  }

  // ---------------------------------------------------------------------------
  // Properties of the state machine

  lemma InitialState()
    ensures |Initial.polygons| == 0 && Initial.drawingMode == Polygon
    ensures HideClearButton(Initial) && !PolygonsEditable(Initial)
  {}

  /** The clear button is shown exactly when there is a polygon and the
      drawing manager is editing; shapes are editable exactly in editing mode. */
  lemma DerivedViews(s: MapState)
    ensures !HideClearButton(s) <==> |s.polygons| > 0 && s.drawingMode == Null
    ensures PolygonsEditable(s) <==> s.drawingMode == Null
  {}

  /** Each mode selects its own banner text. */
  lemma HelperTextTotal()
    ensures forall m: DrawingMode :: ModeKey(m) in HelperText
    ensures HelperTextFor(Polygon) != HelperTextFor(Null)
  {
    assert HelperTextFor(Polygon) == "Connect last point to the first to complete shape";
    assert HelperTextFor(Null) == "Tap to add to lawn area. Press and hold points to move";
    assert |HelperTextFor(Polygon)| != |HelperTextFor(Null)|;
  }

  lemma ClearIdempotent(s: MapState)
    ensures ClearPolygons(ClearPolygons(s)) == ClearPolygons(s)
    ensures HideClearButton(ClearPolygons(s)) && !PolygonsEditable(ClearPolygons(s))
  {}

  /** Completing a polygon makes the shapes editable and shows the clear button,
      whatever the mode was. */
  lemma CompletionEntersEditing(s: MapState, id: string, path: Path, area: Path -> int)
    ensures PolygonsEditable(HandleCompletedPolygon(s, id, path, area))
    ensures !HideClearButton(HandleCompletedPolygon(s, id, path, area))
  {
    var r := HandleCompletedPolygon(s, id, path, area);
    assert |r.polygons| == |s.polygons| + 1;
  }

  /** Editing an unknown id grows the list; editing an id present once keeps
      its length. */
  lemma EditLength(s: MapState, path: Path, id: string, area: Path -> int)
    ensures !HasId(s.polygons, id) ==> |EditPolygon(s, path, id, area).polygons| == |s.polygons| + 1
    ensures CountId(s.polygons, id) == 1 ==> |EditPolygon(s, path, id, area).polygons| == |s.polygons|
  {
    CountIdPositive(s.polygons, id);
  }

  /** A fresh completion id keeps identifiers distinct. */
  lemma {:induction false} CompletionKeepsDistinct(s: MapState, id: string, path: Path, area: Path -> int)
    requires DistinctIds(s.polygons)
    requires !HasId(s.polygons, id)
    ensures DistinctIds(HandleCompletedPolygon(s, id, path, area).polygons)
  {
    var r := HandleCompletedPolygon(s, id, path, area);
    forall i, j | 0 <= i < j < |r.polygons| ensures r.polygons[i].id != r.polygons[j].id {
      if j == |s.polygons| {
        assert r.polygons[i] == s.polygons[i];
      }
    }
  }

  /** Editing keeps identifiers distinct, whether or not the id was present. */
  lemma {:induction false} EditKeepsDistinct(s: MapState, path: Path, id: string, area: Path -> int)
    requires DistinctIds(s.polygons)
    ensures DistinctIds(EditPolygon(s, path, id, area).polygons)
  {
    var kept := Without(s.polygons, id);
    WithoutKeepsDistinct(s.polygons, id);
    var r := EditPolygon(s, path, id, area);
    assert r.polygons == kept + [PolygonRecord(id, path, area(path))];
    forall i, j | 0 <= i < j < |r.polygons| ensures r.polygons[i].id != r.polygons[j].id {
      if j == |kept| {
        assert r.polygons[i] in kept;
      }
    }
  }

  /** Every transition keeps every cached area equal to the area of its path. */
  lemma TransitionsKeepAreasCurrent(s: MapState, id: string, path: Path, area: Path -> int)
    requires AreasCurrent(s.polygons, area)
    ensures AreasCurrent(HandleCompletedPolygon(s, id, path, area).polygons, area)
    ensures AreasCurrent(EditPolygon(s, path, id, area).polygons, area)
    ensures AreasCurrent(ClearPolygons(s).polygons, area)
    ensures AreasCurrent(MapClick(s).polygons, area)
  {
    var e := EditPolygon(s, path, id, area).polygons;
    forall i | 0 <= i < |e| ensures e[i].area == area(e[i].path) {
      if i < |e| - 1 {
        assert e[i] in s.polygons;
      }
    }
  }

  // ---------------------------------------------------------------------------
  // Event sequences

  /** The events the component reacts to. */
  datatype Event =
    | PolygonComplete(newId: string, path: Path)
    | PolygonEdited(path: Path, id: string)
    | ClearClicked
    | MapClicked

  function Step(s: MapState, e: Event, area: Path -> int): MapState
  {
    match e
    case PolygonComplete(newId, path) => HandleCompletedPolygon(s, newId, path, area)
    case PolygonEdited(path, id) => EditPolygon(s, path, id, area)
    case ClearClicked => ClearPolygons(s)
    case MapClicked => MapClick(s)
  }

  function Run(s: MapState, es: seq<Event>, area: Path -> int): MapState
    decreases |es|
  {
    if |es| == 0 then s else Run(Step(s, es[0], area), es[1..], area)
  }

  /** Every completion in `es` receives an identifier no record carries at the
      moment it happens. */
  predicate CompletionsFresh(s: MapState, es: seq<Event>, area: Path -> int)
    decreases |es|
  {
    |es| == 0 ||
    ((es[0].PolygonComplete? ==> !HasId(s.polygons, es[0].newId))
     && CompletionsFresh(Step(s, es[0], area), es[1..], area))
  }

  /** Session invariant: identifiers are distinct and no area is stale, after
      any sequence of events whose completion identifiers are fresh. */
  lemma {:induction false} RunKeepsInvariant(s: MapState, es: seq<Event>, area: Path -> int)
    requires DistinctIds(s.polygons) && AreasCurrent(s.polygons, area)
    requires CompletionsFresh(s, es, area)
    ensures DistinctIds(Run(s, es, area).polygons)
    ensures AreasCurrent(Run(s, es, area).polygons, area)
    decreases |es|
  {
    if |es| > 0 {
      var e := es[0];
      match e {
        case PolygonComplete(newId, path) =>
          CompletionKeepsDistinct(s, newId, path, area);
          TransitionsKeepAreasCurrent(s, newId, path, area);
        case PolygonEdited(path, id) =>
          EditKeepsDistinct(s, path, id, area);
          TransitionsKeepAreasCurrent(s, id, path, area);
        case ClearClicked =>
        case MapClicked =>
      }
      RunKeepsInvariant(Step(s, e, area), es[1..], area);
    }
  }

  /** The scenario of a draw, an edit of that polygon and a clear: the edit keeps
      the identifier and recomputes the area; the clear returns to the start. */
  lemma DrawEditClear(id: string, square: Path, triangle: Path, area: Path -> int)
    ensures var s1 := HandleCompletedPolygon(Initial, id, square, area);
            var s2 := EditPolygon(s1, triangle, id, area);
            && s1.polygons == [PolygonRecord(id, square, area(square))] && s1.drawingMode == Null
            && s2.polygons == [PolygonRecord(id, triangle, area(triangle))] && s2.drawingMode == Null
            && ClearPolygons(s2) == Initial
  {
    var s1 := HandleCompletedPolygon(Initial, id, square, area);
    var s2 := EditPolygon(s1, triangle, id, area);
    assert Without(s1.polygons, id) == [];
  }
}
