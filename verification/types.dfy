/** Shared entities of the InfluxDB-backed span store: identifiers, spans,
    annotations, reconstructed traces, the dynamically typed field values the
    time-series store hands back, and the store's error conditions. */
module Types {

  /** A span, trace or parent identifier: an unsigned 64-bit value. */
  type ID = x: int | 0 <= x < 0x1_0000_0000_0000_0000

  /** The zero identifier marks "no parent", i.e. a root span. */
  const ZeroID: ID := 0

  datatype SpanID = SpanID(trace: ID, span: ID, parent: ID) {
    /** A span is the root of its trace iff its parent is the zero identifier. */
    predicate IsRoot() { parent == ZeroID }
  }

  /** A key/value fact attached to a span; the byte value is kept as a string. */
  datatype Annotation = Annotation(key: string, value: string)

  datatype Span = Span(id: SpanID, annotations: seq<Annotation>)

  /** The zero value of a span, which a trace holds until its root is seen. */
  const ZeroSpan: Span := Span(SpanID(0, 0, 0), [])

  /** A span and the sub-traces attached under it. */
  datatype Trace = Trace(span: Span, sub: seq<Trace>)

  /** A field as the store's client returns it: a string, nil, or a value of
      any other dynamic type. */
  datatype FieldValue = Str(s: string) | Nil | Other

  /** The point's time: unset, or the raw RFC 3339 text the store returned
      (kept opaque). */
  datatype Timestamp = NoTime | At(raw: string)

  /** A stored point as read back for one exact span identity. */
  datatype Point = Point(fields: map<string, FieldValue>, time: Timestamp)

  /** The point that a collect call writes: tags from the span identity,
      the field map, and the time. */
  datatype WriteRecord = WriteRecord(id: SpanID, fields: map<string, FieldValue>, time: Timestamp)

  /** One series of a query result: the tags (already parsed into a span
      identity), the column names and the value rows. */
  datatype Row = Row(id: SpanID, columns: seq<string>, values: seq<seq<FieldValue>>)

  datatype Error =
    | TraceNotFound            // "trace not found"
    | MultipleRootSpans        // "unexpected multiple root spans"
    | DuplicatedRootSpan       // "duplicated root span"
    | ParentNotFound           // "parent not found"
    | MaxRetries               // "maximum number of retries"
    | UnexpectedFieldType      // "unexpected field type: ..."
    | UnexpectedSchemaFieldType // "unexpected schema field type: ..."
    | MultipleRowValues        // "unexpected multiple row values"
    | MultipleSeries           // "unexpected multiple series"
    | EmptySeries              // "unexpected empty series"

  datatype Option<T> = None | Some(value: T)

  datatype Result<T> = Ok(value: T) | Err(error: Error)
}
