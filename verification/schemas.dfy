/** Schema manifest tracking. Each stored span carries a `schemas` field that
    lists, comma-separated, the event schemas whose annotations were really
    written for it; on read the manifest tells genuine annotations apart from
    empty columns that the store reports for every point of the measurement. */
module Schemas {
  import opened Types
  import opened Strings

  /** Prefix of the annotation keys that mark an event schema. It is defined
      outside influxdb_store.go; this model fixes it to appdash's value. */
  const SchemaPrefix: string := "_schema:"
  const SchemasFieldName: string := "schemas"
  const SchemasFieldSeparator: char := ','

  predicate HasSchemaPrefix(key: string) { SchemaPrefix <= key }

  /** The schema name a prefixed key stands for: the key without the prefix. */
  function SchemaOf(key: string): string
    requires HasSchemaPrefix(key)
  {
    key[|SchemaPrefix|..]
  }

  predicate NoDuplicates(xs: seq<string>)
  {
    forall i, j :: 0 <= i < j < |xs| ==> xs[i] != xs[j]
  }

  /** The schema names of the prefixed keys of `anns`, in order of appearance,
      duplicates kept. */
  function SchemaNames(anns: seq<Annotation>): seq<string>
  {
    if |anns| == 0 then []
    else
      var key := anns[|anns| - 1].key;
      SchemaNames(anns[..|anns| - 1]) + (if HasSchemaPrefix(key) then [SchemaOf(key)] else [])
  }

  /** SchemaNames keeps input order and duplicates: it maps concatenation to
      concatenation, and a single annotation contributes its stripped key
      exactly when the key carries the prefix. */
  lemma {:induction false} SchemaNamesHomomorphic(xs: seq<Annotation>, ys: seq<Annotation>, a: Annotation)
    ensures SchemaNames(xs + ys) == SchemaNames(xs) + SchemaNames(ys)
    ensures SchemaNames([a]) == if HasSchemaPrefix(a.key) then [SchemaOf(a.key)] else []
    decreases |ys|
  {
    assert [a][..0] == [];
    if |ys| == 0 {
      assert xs + ys == xs;
    } else {
      var init := ys[..|ys| - 1];
      SchemaNamesHomomorphic(xs, init, a);
      assert (xs + ys)[..|xs + ys| - 1] == xs + init;
      assert (xs + ys)[|xs + ys| - 1] == ys[|ys| - 1];
    }
  }

  /** The manifest written for a set of annotations: their schema names
      joined by the separator (no deduplication). */
  function SchemasFromAnnotations(anns: seq<Annotation>): (manifest: string)
    ensures SchemaNames(anns) == [] ==> manifest == ""
    ensures SchemaNames(anns) != [] && (forall i :: 0 <= i < |SchemaNames(anns)| ==> SchemasFieldSeparator !in SchemaNames(anns)[i])
            ==> Split(manifest, SchemasFieldSeparator) == SchemaNames(anns)
  {
    var names := SchemaNames(anns);
    if names != [] && (forall i :: 0 <= i < |names| ==> SchemasFieldSeparator !in names[i]) then
      SplitJoin(names, SchemasFieldSeparator);
      Join(names, [SchemasFieldSeparator])
    else
      Join(names, [SchemasFieldSeparator])
  }

  /** Linear search for `schema` among `schemas`. */
  function SchemaExists(schema: string, schemas: seq<string>): (found: bool)
    ensures found <==> schema in schemas
  {
    if |schemas| == 0 then false
    else schema == schemas[0] || SchemaExists(schema, schemas[1..])
  }

  /** The first annotation whose key is the manifest field name, if any. */
  function FindSchemasAnnotation(anns: seq<Annotation>): (r: Option<Annotation>)
    ensures r.None? <==> forall i :: 0 <= i < |anns| ==> anns[i].key != SchemasFieldName
    ensures r.Some? ==> exists i :: 0 <= i < |anns| && anns[i] == r.value
                          && r.value.key == SchemasFieldName
                          && forall j :: 0 <= j < i ==> anns[j].key != SchemasFieldName
  {
    if |anns| == 0 then None
    else if anns[0].key == SchemasFieldName then Some(anns[0])
    else
      var r := FindSchemasAnnotation(anns[1..]);
      assert forall i :: 1 <= i < |anns| ==> anns[i] == anns[1..][i - 1];
      r
  }

  /** An annotation survives filtering iff it is not schema-prefixed or its
      schema is listed. */
  predicate Listed(a: Annotation, schemas: seq<string>)
  {
    !HasSchemaPrefix(a.key) || SchemaOf(a.key) in schemas
  }

  /** `sub` is `s` with some elements left out, the rest in their order. */
  ghost predicate IsSubsequence(sub: seq<Annotation>, s: seq<Annotation>)
  {
    if |sub| == 0 then true
    else if |s| == 0 then false
    else (sub[|sub| - 1] == s[|s| - 1] && IsSubsequence(sub[..|sub| - 1], s[..|s| - 1]))
         || IsSubsequence(sub, s[..|s| - 1])
  }

  /** The annotations of `anns` whose schema, if any, is among `schemas`. */
  function KeepListed(anns: seq<Annotation>, schemas: seq<string>): (kept: seq<Annotation>)
    ensures IsSubsequence(kept, anns)
    ensures forall a :: multiset(kept)[a] == if Listed(a, schemas) then multiset(anns)[a] else 0
  {
    if |anns| == 0 then []
    else
      var init := anns[..|anns| - 1];
      var a := anns[|anns| - 1];
      var rest := KeepListed(init, schemas);
      assert anns == init + [a];
      if HasSchemaPrefix(a.key) && !SchemaExists(SchemaOf(a.key), schemas) then
        rest
      else
        assert (rest + [a])[..|rest|] == rest;
        rest + [a]
  }

  /** The annotations a decoded span keeps: every unprefixed one, and a
      prefixed one only when its schema is listed in the first manifest
      annotation. A manifest annotation must be present. */
  function FilterSchemas(anns: seq<Annotation>): (kept: seq<Annotation>)
    requires FindSchemasAnnotation(anns).Some?
    ensures IsSubsequence(kept, anns)
    ensures forall a :: multiset(kept)[a] ==
              if Listed(a, Split(FindSchemasAnnotation(anns).value.value, SchemasFieldSeparator))
              then multiset(anns)[a] else 0
  {
    var schemas := Split(FindSchemasAnnotation(anns).value.value, SchemasFieldSeparator);
    KeepListed(anns, schemas)
  }

  /** When the manifest lists a single schema (say HTTPClient), no
      annotation marking another schema (say HTTPServer) survives filtering,
      whatever empty columns the store padded the row with, while every
      unprefixed annotation does survive. */
  lemma UnlistedSchemaDropped(anns: seq<Annotation>, listed: string, other: string)
    requires FindSchemasAnnotation(anns).Some?
    requires FindSchemasAnnotation(anns).value.value == listed
    requires SchemasFieldSeparator !in listed && other != listed
    ensures forall a :: a in FilterSchemas(anns) ==> a.key != SchemaPrefix + other
    ensures forall a :: a in anns && !HasSchemaPrefix(a.key) ==> a in FilterSchemas(anns)
  {
    SplitJoin([listed], SchemasFieldSeparator);
    var schemas := Split(listed, SchemasFieldSeparator);
    assert schemas == [listed];
    var kept := FilterSchemas(anns);
    forall a | a in kept
      ensures a.key != SchemaPrefix + other
    {
      assert multiset(kept)[a] > 0;
      assert Listed(a, schemas);
    }
    forall a | a in anns && !HasSchemaPrefix(a.key)
      ensures a in kept
    {
      assert multiset(anns)[a] > 0;
      assert Listed(a, schemas);
    }
  }

  /** The schema names a manifest field contributes: nil, the empty string
      and non-strings contribute none. */
  function Contribution(v: FieldValue): set<string>
  {
    if v.Str? && v.s != "" then set x | x in Split(v.s, SchemasFieldSeparator) else {}
  }

  /** `merged` is the union of the two manifests, each schema once: empty
      when nothing is contributed, otherwise a separator-joined list without
      repeats whose parts are exactly the contributed names. */
  ghost predicate IsSchemaUnion(merged: string, incoming: FieldValue, stored: FieldValue)
  {
    var u := Contribution(incoming) + Contribution(stored);
    (u == {} ==> merged == "")
    && (u != {} ==>
          NoDuplicates(Split(merged, SchemasFieldSeparator))
          && (set x | x in Split(merged, SchemasFieldSeparator)) == u)
  }

  /** The union of the names contributed by non-empty manifests `fs`. */
  ghost function ContributionOf(fs: seq<string>): set<string>
  {
    if |fs| == 0 then {}
    else ContributionOf(fs[..|fs| - 1]) + Contribution(Str(fs[|fs| - 1]))
  }

  /** The keys of a Go map of strings, in whatever order iteration visits
      them: every key exactly once. */
  method CacheKeys(cache: set<string>) returns (keys: seq<string>)
    ensures NoDuplicates(keys)
    ensures (set x | x in keys) == cache
  {
    keys := [];
    var rest := cache;
    while rest != {}
      invariant rest <= cache
      invariant (set x | x in keys) + rest == cache
      invariant forall i :: 0 <= i < |keys| ==> keys[i] !in rest
      invariant NoDuplicates(keys)
      decreases |rest|
    {
      var k :| k in rest;
      keys := keys + [k];
      rest := rest - {k};
    }
  }

  /** Merges two manifest fields into one without duplicates, in the order
      the schema cache happens to be iterated. Either field may be nil;
      a field of any other non-string type is an error. */
  method MergeSchemasField(incoming: FieldValue, stored: FieldValue) returns (r: Result<string>)
    ensures r.Err? <==> incoming.Other? || stored.Other?
    ensures r.Err? ==> r.error == UnexpectedSchemaFieldType
    ensures r.Ok? ==> IsSchemaUnion(r.value, incoming, stored)
  {
    var fields := [incoming, stored];
    var strFields: seq<string> := [];
    for i := 0 to |fields|
      invariant forall j :: 0 <= j < i ==> !fields[j].Other?
      invariant ContributionOf(strFields) ==
                (if i >= 1 then Contribution(incoming) else {}) + (if i >= 2 then Contribution(stored) else {})
    {
      match fields[i]
      case Str(s) =>
        assert strFields + [s] == (strFields + [s])[..|strFields|] + [s];
        strFields := strFields + [s];
      case Nil =>
      case Other =>
        return Err(UnexpectedSchemaFieldType);
    }
    assert fields[0] == incoming && fields[1] == stored;
    assert !incoming.Other? && !stored.Other?;

    // The schema cache: a set, since only the keys of the Go map matter.
    var schemas: set<string> := {};
    for i := 0 to |strFields|
      invariant schemas == ContributionOf(strFields[..i])
      invariant forall x :: x in schemas ==> SchemasFieldSeparator !in x
    {
      assert strFields[..i + 1][..i] == strFields[..i];
      var strField := strFields[i];
      if strField != "" {
        var sf := Split(strField, SchemasFieldSeparator);
        for j := 0 to |sf|
          invariant schemas == ContributionOf(strFields[..i]) + (set x | x in sf[..j])
          invariant forall x :: x in schemas ==> SchemasFieldSeparator !in x
        {
          assert sf[..j + 1] == sf[..j] + [sf[j]];
          if sf[j] !in schemas {
            schemas := schemas + {sf[j]};
          }
        }
        assert sf[..|sf|] == sf;
      }
    }
    assert strFields[..|strFields|] == strFields;

    // Iteration over the cache: any order.
    var result := CacheKeys(schemas);
    assert schemas == Contribution(incoming) + Contribution(stored);
    if result != [] {
      assert result[0] in (set x | x in result);
      assert result[0] in Contribution(incoming) + Contribution(stored);
      forall i | 0 <= i < |result|
        ensures SchemasFieldSeparator !in result[i]
      {
        assert result[i] in (set x | x in result);
      }
      SplitJoin(result, SchemasFieldSeparator);
    }
    r := Ok(Join(result, [SchemasFieldSeparator]));
  }
}
