/** The upsert merger: how a collect call turns newly submitted annotations,
    and the point already stored for the same span identity (if any), into
    the point that is written back. */
module Upsert {
  import opened Types
  import opened Strings
  import opened Schemas

  /** The field map of a set of annotations: one string field per key, the
      last annotation with a key giving its value. */
  function FieldsOf(anns: seq<Annotation>): (fields: map<string, FieldValue>)
    ensures forall k :: k in fields ==> fields[k].Str?
  {
    if |anns| == 0 then map[]
    else
      var a := anns[|anns| - 1];
      FieldsOf(anns[..|anns| - 1])[a.key := Str(a.value)]
  }

  /** A key is a field iff some annotation has it, and its value is that of
      the last annotation with the key. */
  lemma {:induction false} FieldsOfLastWins(anns: seq<Annotation>, k: string)
    ensures k in FieldsOf(anns) <==> exists i :: 0 <= i < |anns| && anns[i].key == k
    ensures forall i :: 0 <= i < |anns| && anns[i].key == k
                        && (forall j :: i < j < |anns| ==> anns[j].key != k)
                        ==> k in FieldsOf(anns) && FieldsOf(anns)[k] == Str(anns[i].value)
  {
    if |anns| > 0 {
      var init := anns[..|anns| - 1];
      FieldsOfLastWins(init, k);
      assert forall i :: 0 <= i < |init| ==> init[i] == anns[i];
      if k in FieldsOf(anns) && anns[|anns| - 1].key != k {
        var i :| 0 <= i < |init| && init[i].key == k;
        assert anns[i].key == k;
      }
    }
  }

  /** Nil and the empty string are the empty field values. */
  predicate IsEmptyField(v: FieldValue)
  {
    v == Nil || v == Str("")
  }

  /** The fields of `pf` whose value is not empty (non-string values other
      than nil are kept). */
  method WithoutEmptyFields(pf: map<string, FieldValue>) returns (r: map<string, FieldValue>)
    ensures forall k :: k in r <==> k in pf && !IsEmptyField(pf[k])
    ensures forall k :: k in r ==> r[k] == pf[k]
  {
    r := map[];
    var ks := pf.Keys;
    while ks != {}
      invariant ks <= pf.Keys
      invariant forall k :: k in r <==> k in pf && k !in ks && !IsEmptyField(pf[k])
      invariant forall k :: k in r ==> r[k] == pf[k]
      decreases |ks|
    {
      var k :| k in ks;
      var v := pf[k];
      match v {
        case Str(s) =>
          if s != "" {
            r := r[k := v];
          }
        case Nil =>
        case Other =>
          r := r[k := v];
      }
      ks := ks - {k};
    }
  }

  /** `dst` with the value of every key it shares with `src` replaced by
      `src`'s value: no key is added or removed. */
  method ExtendFields(dst: map<string, FieldValue>, src: map<string, FieldValue>)
    returns (r: map<string, FieldValue>)
    ensures r.Keys == dst.Keys
    ensures forall k :: k in r ==> r[k] == if k in src then src[k] else dst[k]
  {
    r := dst;
    var ks := src.Keys;
    while ks != {}
      invariant ks <= src.Keys
      invariant r.Keys == dst.Keys
      invariant forall k :: k in r ==> r[k] == if k in src && k !in ks then src[k] else dst[k]
      decreases |ks|
    {
      var k :| k in ks;
      if k in r {
        r := r[k := src[k]];
      }
      ks := ks - {k};
    }
  }

  /** What a point read back from one value row says: a field for every
      column whose value is a string, the last such string winning, and
      the point's time is the `time` column's text. */
  ghost predicate DecodedPoint(p: Point, cols: seq<string>, vals: seq<FieldValue>)
    requires |vals| <= |cols|
  {
    (forall k :: k in p.fields <==> exists m :: 0 <= m < |vals| && cols[m] == k && vals[m].Str?)
    && (forall k :: k in p.fields ==> p.fields[k].Str?)
    && (forall m ::
          (0 <= m < |vals| && vals[m].Str? && forall j :: m < j < |vals| && cols[j] == cols[m] ==> !vals[j].Str?)
          ==> p.fields[cols[m]] == vals[m])
    && p.time == (if "time" in p.fields then At(p.fields["time"].s) else NoTime)
  }

  /** Reads the point stored for one exact span identity from the lookup's
      series: none when there is no series, an error for several series, an
      empty series, or a field that is neither a string nor nil. */
  method FindSpanPoint(series: seq<Row>) returns (r: Result<Option<Point>>)
    requires |series| == 1 && |series[0].values| > 0 ==> |series[0].values[0]| <= |series[0].columns|
    ensures |series| == 0 ==> r == Ok(None)
    ensures |series| > 1 ==> r == Err(MultipleSeries)
    ensures |series| == 1 && |series[0].values| == 0 ==> r == Err(EmptySeries)
    ensures |series| == 1 && |series[0].values| > 0 ==>
              (r.Err? <==> exists m :: 0 <= m < |series[0].values[0]| && series[0].values[0][m].Other?)
              && (r.Err? ==> r.error == UnexpectedFieldType)
              && (r.Ok? ==> r.value.Some? && DecodedPoint(r.value.value, series[0].columns, series[0].values[0]))
  {
    if |series| == 0 {
      return Ok(None);
    }
    if |series| > 1 {
      return Err(MultipleSeries);
    }
    var row := series[0];
    if |row.values| == 0 {
      return Err(EmptySeries);
    }
    var fields: map<string, FieldValue> := map[];
    var time := NoTime;
    var vals := row.values[0];
    var cols := row.columns;
    for i := 0 to |vals|
      invariant forall m :: 0 <= m < i ==> !vals[m].Other?
      invariant forall k :: k in fields <==> exists m :: 0 <= m < i && cols[m] == k && vals[m].Str?
      invariant forall k :: k in fields ==> fields[k].Str?
      invariant forall m ::
                  (0 <= m < i && vals[m].Str? && forall j :: m < j < i && cols[j] == cols[m] ==> !vals[j].Str?)
                  ==> fields[cols[m]] == vals[m]
      invariant time == (if "time" in fields then At(fields["time"].s) else NoTime)
    {
      var key := cols[i];
      match vals[i] {
        case Str(s) =>
          if key == "time" {
            time := At(s);
          }
          fields := fields[key := Str(s)];
        case Nil =>
        case Other =>
          return Err(UnexpectedFieldType);
      }
    }
    r := Ok(Some(Point(fields, time)));
  }

  /** The manifest field of a stored point; a missing key reads as nil. */
  function StoredManifest(p: Point): FieldValue
  {
    if SchemasFieldName in p.fields then p.fields[SchemasFieldName] else Nil
  }

  /** The annotation fields written by a collect call: exactly the submitted
      keys plus the manifest; a submitted key whose stored value is not
      empty keeps the stored value (the stored value wins), any other key
      the last submitted value. */
  ghost predicate MergedFields(anns: seq<Annotation>, existing: Option<Point>, fields: map<string, FieldValue>)
  {
    fields.Keys == FieldsOf(anns).Keys + {SchemasFieldName}
    && forall k :: k in FieldsOf(anns) && k != SchemasFieldName ==>
         fields[k] == if existing.Some? && k in existing.value.fields && !IsEmptyField(existing.value.fields[k])
                      then existing.value.fields[k] else FieldsOf(anns)[k]
  }

  /** The point a collect call for span `id` writes, given the point already
      stored for that exact identity (`existing`) and the current time. A new
      point gets the manifest of the submitted annotations and the current
      time; a rewritten point keeps its stored time and gets the union of
      the stored and the submitted manifests. */
  method Collect(id: SpanID, anns: seq<Annotation>, existing: Option<Point>, now: Timestamp)
    returns (r: Result<WriteRecord>)
    ensures r.Err? <==> existing.Some? && StoredManifest(existing.value).Other?
    ensures r.Err? ==> r.error == UnexpectedSchemaFieldType
    ensures r.Ok? ==> r.value.id == id && MergedFields(anns, existing, r.value.fields)
    ensures r.Ok? && existing.None? ==>
              r.value.fields[SchemasFieldName] == Str(SchemasFromAnnotations(anns)) && r.value.time == now
    ensures r.Ok? && existing.Some? ==>
              r.value.time == existing.value.time
              && r.value.fields[SchemasFieldName].Str?
              && IsSchemaUnion(r.value.fields[SchemasFieldName].s, Str(SchemasFromAnnotations(anns)),
                               StoredManifest(existing.value))
  {
    var fields: map<string, FieldValue> := map[];
    for i := 0 to |anns|
      invariant fields == FieldsOf(anns[..i])
    {
      assert anns[..i + 1][..i] == anns[..i];
      fields := fields[anns[i].key := Str(anns[i].value)];
    }
    assert anns[..|anns|] == anns;
    var manifest := SchemasFromAnnotations(anns);
    match existing {
      case Some(p) =>
        var nonEmpty := WithoutEmptyFields(p.fields);
        var extended := ExtendFields(fields, nonEmpty);
        var schemas := MergeSchemasField(Str(manifest), StoredManifest(p));
        if schemas.Err? {
          return Err(schemas.error);
        }
        r := Ok(WriteRecord(id, extended[SchemasFieldName := Str(schemas.value)], p.time));
      case None =>
        r := Ok(WriteRecord(id, fields[SchemasFieldName := Str(manifest)], now));
    }
  }

  /** The set of schema names a manifest string lists. */
  function SchemaSet(manifest: string): set<string>
  {
    set x | x in Split(manifest, SchemasFieldSeparator)
  }

  /** Collecting the same annotations again over the point the first collect
      wrote (read back with at least the fields written) writes the same
      field keys, the same annotation values and a manifest listing the same
      schemas. */
  lemma RecollectIsIdempotent(anns: seq<Annotation>, first: map<string, FieldValue>, existing: Point,
                              second: map<string, FieldValue>)
    requires MergedFields(anns, None, first)
    requires first[SchemasFieldName] == Str(SchemasFromAnnotations(anns))
    requires forall k :: k in first ==> k in existing.fields && existing.fields[k] == first[k]
    requires MergedFields(anns, Some(existing), second)
    requires second[SchemasFieldName].Str?
    requires IsSchemaUnion(second[SchemasFieldName].s, Str(SchemasFromAnnotations(anns)), StoredManifest(existing))
    ensures second.Keys == first.Keys
    ensures forall k :: k in first && k != SchemasFieldName ==> second[k] == first[k]
    ensures SchemaSet(second[SchemasFieldName].s) == SchemaSet(SchemasFromAnnotations(anns))
  {
    var m := SchemasFromAnnotations(anns);
    assert StoredManifest(existing) == Str(m);
    var u := Contribution(Str(m));
    if m == "" {
      assert u == {};
    } else {
      assert u == SchemaSet(m);
      assert Split(m, SchemasFieldSeparator)[0] in u;
    }
  }

  /** A rewrite never loses a schema: the merged manifest lists every schema
      of the stored manifest and of the submitted one. */
  lemma ManifestAccumulates(merged: string, incoming: FieldValue, stored: FieldValue)
    requires IsSchemaUnion(merged, incoming, stored)
    ensures Contribution(incoming) <= SchemaSet(merged)
    ensures Contribution(stored) <= SchemaSet(merged)
  {
  }

  /** The overlap policy: once a non-empty value is stored under a key, a
      later collect that submits another value for the key writes the stored
      one back. */
  lemma StoredValueWins(anns: seq<Annotation>, existing: Point, fields: map<string, FieldValue>,
                        k: string, v: string)
    requires MergedFields(anns, Some(existing), fields)
    requires k in FieldsOf(anns) && k != SchemasFieldName
    requires k in existing.fields && existing.fields[k] == Str(v) && v != ""
    ensures fields[k] == Str(v)
  {
  }
}
