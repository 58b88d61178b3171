/** The well-formedness check on data posted to /api/v4/courses
    (hyperschedule/api/validate.py). */
module Validate {
  import opened Util
  import opened JsonValue

  /** Why a payload is refused. MissingKey is Python's KeyError from
      indexing a map; every other case is a UserError. */
  datatype CheckError =
    | NotAMap(data: Json)
    | MissingKey(key: string)
    | ScraperNotString(scraper: Json)
    | TermNotMap(term: Json)
    | TermFieldNotString(field: string, value: Option<Json>)
    | SortKeyNotArray(sortKey: Json)
    | NonPrimitive(item: Json)

  predicate IsUserError(e: CheckError)
  {
    !e.MissingKey?
  }

  /** `isinstance(item, (bool, int, str))`; floats are not modelled. */
  predicate Primitive(j: Json)
  {
    j.JBool? || j.JInt? || j.JStr?
  }

  /** The first item of the sort key that is not a primitive. */
  function FirstNonPrimitive(items: seq<Json>): Option<Json>
    decreases |items|
  {
    if items == [] then None
    else if !Primitive(items[0]) then Some(items[0])
    else FirstNonPrimitive(items[1..])
  }

  /** FirstNonPrimitive finds nothing exactly when every item is a
      primitive, and otherwise the earliest item that is not. */
  lemma {:induction false} FirstNonPrimitiveSpec(items: seq<Json>)
    ensures FirstNonPrimitive(items).None? <==> forall i :: 0 <= i < |items| ==> Primitive(items[i])
    ensures FirstNonPrimitive(items).Some? ==>
              exists i :: 0 <= i < |items| && items[i] == FirstNonPrimitive(items).value
                          && !Primitive(items[i]) && forall j :: 0 <= j < i ==> Primitive(items[j])
    decreases |items|
  {
    if items != [] && Primitive(items[0]) {
      var rest := items[1..];
      FirstNonPrimitiveSpec(rest);
      assert forall i :: 0 <= i < |rest| ==> rest[i] == items[i + 1];
      if FirstNonPrimitive(rest).Some? {
        var i :| 0 <= i < |rest| && rest[i] == FirstNonPrimitive(rest).value
                 && !Primitive(rest[i]) && forall j :: 0 <= j < i ==> Primitive(rest[j]);
        assert items[i + 1] == rest[i];
        forall j | 0 <= j < i + 1 ensures Primitive(items[j]) {
          if j > 0 {
            assert items[j] == rest[j - 1];
          }
        }
      } else {
        forall i | 0 <= i < |items| ensures Primitive(items[i]) {
          if i > 0 {
            assert items[i] == rest[i - 1];
          }
        }
      }
    }
  }

  /** The loop over termSortKey, which stops at the first item that is not
      a primitive. */
  method ScanSortKey(items: seq<Json>) returns (r: Option<Json>)
    ensures r == FirstNonPrimitive(items)
  {
    var i := 0;
    while i < |items|
      invariant 0 <= i <= |items|
      invariant FirstNonPrimitive(items) == FirstNonPrimitive(items[i..])
      decreases |items| - i
    {
      if !Primitive(items[i]) {
        return Some(items[i]);
      }
      assert items[i..][1..] == items[i + 1..];
      i := i + 1;
    }
    return None;
  }

  /** `term_info.get(key)` must be a string; a missing key is reported with
      None. */
  function CheckTermField(term: map<string, Json>, field: string): Result<(), CheckError>
  {
    if field !in term then Err(TermFieldNotString(field, None))
    else if !term[field].JStr? then Err(TermFieldNotString(field, Some(term[field])))
    else Ok(())
  }

  /** check(data): the checks in the order the source makes them. */
  function Check(data: Json): Result<(), CheckError>
  {
    if !data.JObj? then Err(NotAMap(data))
    else if "scraper" !in data.fields then Err(MissingKey("scraper"))
    else if !data.fields["scraper"].JStr? then Err(ScraperNotString(data.fields["scraper"]))
    else if "term" !in data.fields then Err(MissingKey("term"))
    else if !data.fields["term"].JObj? then Err(TermNotMap(data.fields["term"]))
    else
      var term := data.fields["term"].fields;
      match CheckTermField(term, "termCode")
      case Err(e) => Err(e)
      case Ok(_) =>
        match CheckTermField(term, "termName")
        case Err(e) => Err(e)
        case Ok(_) =>
          if "termSortKey" !in term then Err(MissingKey("termSortKey"))
          else if !term["termSortKey"].JArr? then Err(SortKeyNotArray(term["termSortKey"]))
          else match FirstNonPrimitive(term["termSortKey"].items)
            case Some(item) => Err(NonPrimitive(item))
            case None => Ok(())
  }

  /** What an accepted payload looks like. */
  predicate WellFormed(data: Json)
  {
    && data.JObj?
    && "scraper" in data.fields && data.fields["scraper"].JStr?
    && "term" in data.fields && data.fields["term"].JObj?
    && var term := data.fields["term"].fields;
       && "termCode" in term && term["termCode"].JStr?
       && "termName" in term && term["termName"].JStr?
       && "termSortKey" in term && term["termSortKey"].JArr?
       && forall i :: 0 <= i < |term["termSortKey"].items| ==> Primitive(term["termSortKey"].items[i])
  }

  /** A payload is accepted exactly when it is well formed. A refused one
      fails with a KeyError only for a missing "scraper", "term" or
      "termSortKey", and otherwise with a UserError; a refused sort-key item
      is the first one that is not a primitive. */
  lemma CheckSpec(data: Json)
    ensures Check(data).Ok? <==> WellFormed(data)
    ensures Check(data).Err? && Check(data).error.MissingKey? ==>
              Check(data).error.key in {"scraper", "term", "termSortKey"}
    ensures Check(data).Err? && Check(data).error.NonPrimitive? ==>
              var items := data.fields["term"].fields["termSortKey"].items;
              exists i :: 0 <= i < |items| && items[i] == Check(data).error.item
                          && !Primitive(items[i]) && forall j :: 0 <= j < i ==> Primitive(items[j])
  {
    if data.JObj? && "term" in data.fields && data.fields["term"].JObj? {
      var term := data.fields["term"].fields;
      if "termSortKey" in term && term["termSortKey"].JArr? {
        FirstNonPrimitiveSpec(term["termSortKey"].items);
      }
    }
  }

  /** A term field that is missing or not a string is refused as a
      UserError, even though the field is read with `.get`. */
  lemma MissingTermFieldIsUserError(data: Json, field: string)
    requires data.JObj? && "scraper" in data.fields && data.fields["scraper"].JStr?
    requires "term" in data.fields && data.fields["term"].JObj?
    requires field == "termCode" || field == "termName"
    requires field !in data.fields["term"].fields
    ensures Check(data).Err? && IsUserError(Check(data).error)
    ensures field == "termCode" ==> Check(data) == Err(TermFieldNotString(field, None))
  {
  }

  /** "courses" is never looked at: changing or removing it does not
      change the outcome. */
  lemma CoursesIgnored(fields: map<string, Json>, courses: Json)
    ensures Check(JObj(fields["courses" := courses])) == Check(JObj(fields))
    ensures Check(JObj(fields - {"courses"})) == Check(JObj(fields))
  {
    var f1, f2 := fields["courses" := courses], fields - {"courses"};
    assert "scraper" in f1 <==> "scraper" in fields;
    assert "scraper" in f2 <==> "scraper" in fields;
    assert "term" in f1 <==> "term" in fields;
    assert "term" in f2 <==> "term" in fields;
    if "scraper" in fields {
      assert f1["scraper"] == fields["scraper"] && f2["scraper"] == fields["scraper"];
    }
    if "term" in fields {
      assert f1["term"] == fields["term"] && f2["term"] == fields["term"];
    }
  }
}
