/** Decoding one query-result series into a span: columns and values are
    paired by position into annotations, then the schema filter drops the
    padded annotations the manifest does not list. */
module Decode {
  import opened Types
  import opened Schemas

  /** The bytes of a field value: a string's own, nothing for nil. */
  function FieldText(v: FieldValue): string
  {
    if v.Str? then v.s else ""
  }

  /** Pairs each value with the column at the same position. */
  function AnnotationsFromFields(cols: seq<string>, vals: seq<FieldValue>): (r: Result<seq<Annotation>>)
    requires |vals| <= |cols|
    ensures r.Err? <==> exists m :: 0 <= m < |vals| && vals[m].Other?
    ensures r.Err? ==> r.error == UnexpectedFieldType
    ensures r.Ok? ==> |r.value| == |vals|
                      && forall m :: 0 <= m < |vals| ==> r.value[m] == Annotation(cols[m], FieldText(vals[m]))
  {
    if |vals| == 0 then Ok([])
    else
      var n := |vals| - 1;
      var init := AnnotationsFromFields(cols, vals[..n]);
      if init.Err? then init
      else if vals[n].Other? then Err(UnexpectedFieldType)
      else Ok(init.value + [Annotation(cols[n], FieldText(vals[n]))])
  }

  /** The annotations of a series: at most one value row is allowed; each of
      its fields becomes an annotation keyed by its column, a nil field an
      empty-valued one, and a field of any other non-string type is an
      error. */
  function AnnotationsFromRow(r: Row): (res: Result<seq<Annotation>>)
    requires |r.values| == 1 ==> |r.values[0]| <= |r.columns|
    ensures |r.values| > 1 ==> res == Err(MultipleRowValues)
    ensures |r.values| == 0 ==> res == Ok([])
    ensures |r.values| == 1 ==>
              (res.Err? <==> exists m :: 0 <= m < |r.values[0]| && r.values[0][m].Other?)
              && (res.Err? ==> res.error == UnexpectedFieldType)
              && (res.Ok? ==> |res.value| == |r.values[0]|
                              && forall m :: 0 <= m < |r.values[0]| ==>
                                   res.value[m] == Annotation(r.columns[m], FieldText(r.values[0][m])))
  {
    if |r.values| > 1 then Err(MultipleRowValues)
    else if |r.values| == 0 then Ok([])
    else AnnotationsFromFields(r.columns, r.values[0])
  }

  /** A series the decoder can handle without a run-time fault: the value
      row has a column for every field, and once the fields decode a
      manifest annotation is among them. */
  predicate Decodable(r: Row)
  {
    (|r.values| == 1 ==> |r.values[0]| <= |r.columns|)
    && (AnnotationsFromRow(r).Ok? ==> FindSchemasAnnotation(AnnotationsFromRow(r).value).Some?)
  }

  /** The span a series stands for: its identity from the tags, its
      annotations decoded and then filtered by the manifest. */
  function NewSpanFromRow(r: Row): (res: Result<Span>)
    requires Decodable(r)
    ensures res.Err? <==> AnnotationsFromRow(r).Err?
    ensures res.Err? ==> res.error == AnnotationsFromRow(r).error
    ensures res.Ok? ==> res.value.id == r.id
                        && res.value.annotations == FilterSchemas(AnnotationsFromRow(r).value)
                        && IsSubsequence(res.value.annotations, AnnotationsFromRow(r).value)
  {
    var anns := AnnotationsFromRow(r);
    if anns.Err? then Err(anns.error)
    else Ok(Span(r.id, FilterSchemas(anns.value)))
  }
}
