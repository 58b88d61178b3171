/** Canonical course objects and their identity key: the attribute
    tables, course_to_index_key / course_from_index_key, the sort keys,
    the human-readable course code and parse_claremont_course_code
    (hyperschedule/libcourse.py and its older copy libcourse.py). */
module CourseKey {
  import opened Util
  import opened JsonValue

  /** COURSE_ATTRS of hyperschedule/libcourse.py: the tracked attributes. */
  const CourseAttrs: seq<string> := [
    "courseCodeSuffix", "courseDescription", "courseName", "courseNumber",
    "courseStatus", "department", "endDate", "faculty", "firstHalfSemester",
    "openSeats", "quarterCredits", "schedule", "school", "secondHalfSemester",
    "section", "startDate", "totalSeats"]

  /** COURSE_ATTRS of the older libcourse.py, which has no description. */
  const LegacyCourseAttrs: seq<string> := [
    "courseCodeSuffix", "courseName", "courseNumber",
    "courseStatus", "department", "endDate", "faculty", "firstHalfSemester",
    "openSeats", "quarterCredits", "schedule", "school", "secondHalfSemester",
    "section", "startDate", "totalSeats"]

  /** COURSE_INDEX_ATTRS: the identity attributes, in key order. */
  const IndexAttrs: seq<string> := ["department", "courseNumber", "courseCodeSuffix", "school", "section"]

  /** COURSE_INDEX_ATTRS_CONVERT_TO_INT */
  const ConvertToInt: map<string, bool> := map[
    "department" := false, "courseNumber" := true, "courseCodeSuffix" := false,
    "school" := false, "section" := true]

  /** The five identity attributes of a full or partial course. */
  datatype Identity = Identity(
    department: string,
    courseNumber: int,
    courseCodeSuffix: string,
    school: string,
    section: int)

  /** A canonical course object: its identity plus every other attribute
      (schedule, faculty, seats, ...) by name. */
  datatype Course = Course(id: Identity, attrs: map<string, Json>)

  type Record = map<string, Json>

  /** The identity attributes as a partial course object. */
  function IdentityRecord(id: Identity): (r: Record)
  {
    map["department" := JStr(id.department), "courseNumber" := JInt(id.courseNumber),
        "courseCodeSuffix" := JStr(id.courseCodeSuffix), "school" := JStr(id.school),
        "section" := JInt(id.section)]
  }

  /** `course[attr]`: identity attributes come from the identity, the rest
      from the attribute map; None is Python's KeyError. */
  function Get(c: Course, a: string): Option<Json>
  {
    var idr := IdentityRecord(c.id);
    if a in idr then Some(idr[a]) else if a in c.attrs then Some(c.attrs[a]) else None
  }

  /** The course as the dict the API serves. */
  function ToRecord(c: Course): (r: Record)
    ensures forall a :: a in r <==> Get(c, a).Some?
    ensures forall a :: a in r ==> r[a] == Get(c, a).value
  {
    c.attrs + IdentityRecord(c.id)
  }

  /** The course carries every tracked attribute, so `course[attr]` never
      raises for an attribute of `attrs`. */
  predicate Complete(c: Course, attrs: seq<string>)
  {
    forall i :: 0 <= i < |attrs| ==> Get(c, attrs[i]).Some?
  }

  // ---------------------------------------------------------------
  // The index key
  // ---------------------------------------------------------------

  function KeyParts(id: Identity): seq<string>
  {
    [id.department, IntToString(id.courseNumber), id.courseCodeSuffix, id.school, IntToString(id.section)]
  }

  /** course_to_index_key: the identity attributes, str()-ed, joined by "/". */
  function ToIndexKey(id: Identity): string
  {
    Join(KeyParts(id), '/')
  }

  /** The string identity attributes contain no "/", as parsing guarantees. */
  predicate NoSlash(id: Identity)
  {
    '/' !in id.department && '/' !in id.courseCodeSuffix && '/' !in id.school
  }

  /** The loop of course_from_index_key over `zip(attrs, parts)`: None is
      the ValueError that int() raises. */
  function FromParts(attrs: seq<string>, parts: seq<string>): (r: Option<Record>)
    requires forall i :: 0 <= i < |attrs| ==> attrs[i] in ConvertToInt
    ensures r.Some? ==> forall a :: a in r.value ==> a in attrs
    decreases |attrs|
  {
    if |attrs| == 0 || |parts| == 0 then Some(map[])
    else
      var rest := FromParts(attrs[1..], parts[1..]);
      var v: Option<Json> :=
        if ConvertToInt[attrs[0]] then
          (match ParseInt(parts[0]) case Some(n) => Some(JInt(n)) case None => None)
        else Some(JStr(parts[0]));
      if v.None? || rest.None? then None else Some(rest.value[attrs[0] := v.value])
  }

  /** course_from_index_key: the partial course a key stands for. */
  function FromIndexKey(key: string): Option<Record>
  {
    FromParts(IndexAttrs, Split(key, '/'))
  }

  /** A removed course's placeholder is exactly its identity: reading a key
      back gives the five identity attributes, when no string attribute
      contains "/". */
  lemma IndexKeyRoundTrip(id: Identity)
    requires NoSlash(id)
    ensures FromIndexKey(ToIndexKey(id)) == Some(IdentityRecord(id))
  {
    var p := KeyParts(id);
    IntToStringHasNo(id.courseNumber, '/');
    IntToStringHasNo(id.section, '/');
    SplitJoin(p, '/');
    FromKeyParts(id);
  }

  lemma FromKeyParts(id: Identity)
    ensures FromParts(IndexAttrs, KeyParts(id)) == Some(IdentityRecord(id))
  {
    var n, s := IntToString(id.courseNumber), IntToString(id.section);
    var r4 := KeyTail4(id.section);
    var r3 := KeyTail3(id.school, id.section, r4);
    var r2 := KeyTail2(id.courseCodeSuffix, id.school, id.section, r3);
    var r1 := KeyTail1(id.courseNumber, id.courseCodeSuffix, id.school, id.section, r2);
    FromPartsCons("department", ["courseNumber", "courseCodeSuffix", "school", "section"], id.department,
                  [n, id.courseCodeSuffix, id.school, s]);
    assert IndexAttrs == ["department"] + ["courseNumber", "courseCodeSuffix", "school", "section"];
    assert KeyParts(id) == [id.department] + [n, id.courseCodeSuffix, id.school, s];
    IdentityRecordChain(id);
  }

  /** The record built back to front by the zip is the identity record. */
  lemma IdentityRecordChain(id: Identity)
    ensures map["section" := JInt(id.section)]["school" := JStr(id.school)]
              ["courseCodeSuffix" := JStr(id.courseCodeSuffix)]["courseNumber" := JInt(id.courseNumber)]
              ["department" := JStr(id.department)] == IdentityRecord(id)
  {
  }

  lemma KeyTail4(section: int) returns (r: Record)
    ensures FromParts(["section"], [IntToString(section)]) == Some(r)
    ensures r == map["section" := JInt(section)]
  {
    IntToStringRoundTrip(section);
    FromPartsCons("section", [], IntToString(section), []);
    assert ["section"] == ["section"] + [];
    assert [IntToString(section)] == [IntToString(section)] + [];
    r := map["section" := JInt(section)];
  }

  lemma KeyTail3(school: string, section: int, r4: Record) returns (r: Record)
    requires FromParts(["section"], [IntToString(section)]) == Some(r4)
    ensures FromParts(["school", "section"], [school, IntToString(section)]) == Some(r)
    ensures r == r4["school" := JStr(school)]
  {
    FromPartsCons("school", ["section"], school, [IntToString(section)]);
    r := r4["school" := JStr(school)];
  }

  lemma KeyTail2(suffix: string, school: string, section: int, r3: Record) returns (r: Record)
    requires FromParts(["school", "section"], [school, IntToString(section)]) == Some(r3)
    ensures FromParts(["courseCodeSuffix", "school", "section"], [suffix, school, IntToString(section)]) == Some(r)
    ensures r == r3["courseCodeSuffix" := JStr(suffix)]
  {
    FromPartsCons("courseCodeSuffix", ["school", "section"], suffix, [school, IntToString(section)]);
    r := r3["courseCodeSuffix" := JStr(suffix)];
  }

  lemma KeyTail1(number: int, suffix: string, school: string, section: int, r2: Record) returns (r: Record)
    requires FromParts(["courseCodeSuffix", "school", "section"], [suffix, school, IntToString(section)]) == Some(r2)
    ensures FromParts(["courseNumber", "courseCodeSuffix", "school", "section"],
                      [IntToString(number), suffix, school, IntToString(section)]) == Some(r)
    ensures r == r2["courseNumber" := JInt(number)]
  {
    IntToStringRoundTrip(number);
    FromPartsCons("courseNumber", ["courseCodeSuffix", "school", "section"], IntToString(number),
                  [suffix, school, IntToString(section)]);
    r := r2["courseNumber" := JInt(number)];
  }

  /** One step of the zip in course_from_index_key. */
  lemma FromPartsCons(a: string, attrs: seq<string>, p: string, parts: seq<string>)
    requires a in ConvertToInt && forall i :: 0 <= i < |attrs| ==> attrs[i] in ConvertToInt
    ensures FromParts([a] + attrs, [p] + parts)
         == if FromParts(attrs, parts).None? then None
            else if !ConvertToInt[a] then Some(FromParts(attrs, parts).value[a := JStr(p)])
            else if ParseInt(p).None? then None
            else Some(FromParts(attrs, parts).value[a := JInt(ParseInt(p).value)])
  {
    assert ([a] + attrs)[1..] == attrs && ([p] + parts)[1..] == parts;
  }

  /** Two identities without "/" that share a key are the same identity,
      so the index key identifies a course slot. */
  lemma IndexKeyInjective(a: Identity, b: Identity)
    requires NoSlash(a) && NoSlash(b)
    requires ToIndexKey(a) == ToIndexKey(b)
    ensures a == b
  {
    IndexKeyRoundTrip(a);
    IndexKeyRoundTrip(b);
    var ra, rb := IdentityRecord(a), IdentityRecord(b);
    assert ra["department"] == rb["department"] && ra["courseNumber"] == rb["courseNumber"];
    assert ra["courseCodeSuffix"] == rb["courseCodeSuffix"] && ra["school"] == rb["school"];
    assert ra["section"] == rb["section"];
  }

  /** Only courseNumber and section are converted back to int; the other
      parts stay strings, and the table covers exactly the identity attributes. */
  lemma ConvertTable(key: string)
    requires FromIndexKey(key).Some?
    ensures ConvertToInt.Keys == set a | a in IndexAttrs
    ensures forall a :: a in FromIndexKey(key).value ==>
              (FromIndexKey(key).value[a].JInt? <==> a == "courseNumber" || a == "section")
  {
    var r := FromIndexKey(key).value;
    var parts := Split(key, '/');
    forall a | a in r
      ensures r[a].JInt? <==> a == "courseNumber" || a == "section"
    {
      FromPartsKinds(IndexAttrs, parts, a);
    }
  }

  lemma {:induction false} FromPartsKinds(attrs: seq<string>, parts: seq<string>, a: string)
    requires forall i :: 0 <= i < |attrs| ==> attrs[i] in ConvertToInt
    requires FromParts(attrs, parts).Some? && a in FromParts(attrs, parts).value
    ensures FromParts(attrs, parts).value[a].JInt? <==> ConvertToInt[a]
    decreases |attrs|
  {
    if |attrs| > 0 && |parts| > 0 && a != attrs[0] {
      FromPartsKinds(attrs[1..], parts[1..], a);
    }
  }

  // ---------------------------------------------------------------
  // Sort keys and the readable course code
  // ---------------------------------------------------------------

  /** Python's `<` on str: code-point lexicographic order. */
  predicate StrLess(a: string, b: string)
    decreases |a|
  {
    if |b| == 0 then false
    else if |a| == 0 then true
    else if a[0] != b[0] then a[0] < b[0]
    else StrLess(a[1..], b[1..])
  }

  lemma {:induction false} StrLessIrreflexive(a: string)
    ensures !StrLess(a, a)
    decreases |a|
  {
    if |a| > 0 { StrLessIrreflexive(a[1..]); }
  }

  lemma {:induction false} StrLessTransitive(a: string, b: string, c: string)
    requires StrLess(a, b) && StrLess(b, c)
    ensures StrLess(a, c)
    decreases |a|
  {
    if |a| > 0 && |b| > 0 && |c| > 0 && a[0] == b[0] && b[0] == c[0] {
      StrLessTransitive(a[1..], b[1..], c[1..]);
    }
  }

  lemma {:induction false} StrLessTotal(a: string, b: string)
    requires a != b
    ensures StrLess(a, b) || StrLess(b, a)
    decreases |a|
  {
    if |a| > 0 && |b| > 0 && a[0] == b[0] {
      assert a == [a[0]] + a[1..] && b == [b[0]] + b[1..];
      StrLessTotal(a[1..], b[1..]);
    }
  }

  /** course_sort_key: the identity attributes in COURSE_INDEX_ATTRS order. */
  function SortKey(id: Identity): (string, int, string, string, int)
  {
    (id.department, id.courseNumber, id.courseCodeSuffix, id.school, id.section)
  }

  /** Python's `<` on the sort-key tuples. */
  predicate SortKeyLess(x: Identity, y: Identity)
  {
    if x.department != y.department then StrLess(x.department, y.department)
    else if x.courseNumber != y.courseNumber then x.courseNumber < y.courseNumber
    else if x.courseCodeSuffix != y.courseCodeSuffix then StrLess(x.courseCodeSuffix, y.courseCodeSuffix)
    else if x.school != y.school then StrLess(x.school, y.school)
    else x.section < y.section
  }

  /** `<=` on sort keys. */
  predicate SortKeyLe(x: Identity, y: Identity) { !SortKeyLess(y, x) }

  lemma SortKeyLessStrict(x: Identity, y: Identity, z: Identity)
    ensures !SortKeyLess(x, x)
    ensures SortKeyLess(x, y) && SortKeyLess(y, z) ==> SortKeyLess(x, z)
    ensures SortKey(x) != SortKey(y) ==> SortKeyLess(x, y) || SortKeyLess(y, x)
    ensures SortKeyLess(x, y) ==> !SortKeyLess(y, x)
  {
    StrLessCases(x.department, y.department, z.department);
    StrLessCases(x.courseCodeSuffix, y.courseCodeSuffix, z.courseCodeSuffix);
    StrLessCases(x.school, y.school, z.school);
    StrLessCases(y.department, x.department, z.department);
    StrLessCases(y.courseCodeSuffix, x.courseCodeSuffix, z.courseCodeSuffix);
    StrLessCases(y.school, x.school, z.school);
  }

  /** The sort-key order is a total preorder whose ties are exactly the
      equal sort keys, so sorting by it is well defined. */
  lemma SortKeyOrder(x: Identity, y: Identity, z: Identity)
    ensures SortKeyLe(x, y) || SortKeyLe(y, x)
    ensures SortKeyLe(x, y) && SortKeyLe(y, z) ==> SortKeyLe(x, z)
    ensures SortKeyLe(x, y) && SortKeyLe(y, x) <==> SortKey(x) == SortKey(y)
  {
    SortKeyLessStrict(x, y, z);
    SortKeyLessStrict(z, x, y);
    SortKeyLessStrict(y, z, x);
    SortKeyLessStrict(x, z, y);
    SortKeyLessStrict(y, x, z);
    SortKeyLessStrict(z, y, x);
  }

  lemma StrLessCases(a: string, b: string, c: string)
    ensures StrLess(a, b) && StrLess(b, c) ==> StrLess(a, c)
    ensures a != b ==> StrLess(a, b) || StrLess(b, a)
    ensures !StrLess(a, a)
    ensures StrLess(a, b) ==> a != b && !StrLess(b, a)
  {
    if StrLess(a, b) && StrLess(b, c) { StrLessTransitive(a, b, c); }
    if a != b { StrLessTotal(a, b); }
    StrLessIrreflexive(a);
    if StrLess(a, b) && StrLess(b, a) { StrLessTransitive(a, b, a); StrLessIrreflexive(a); }
    if StrLess(a, b) && a == b { StrLessIrreflexive(a); }
  }

  /** A schedule slot of a canonical course. */
  datatype Slot = Slot(days: string, location: string, startTime: string, endTime: string)

  /** schedule_sort_key: (days, startTime, endTime); the location is not
      part of the key. */
  function ScheduleSortKey(s: Slot): (string, string, string)
  {
    (s.days, s.startTime, s.endTime)
  }

  /** Python's `<` on a tuple of three strings: the first entry that
      differs decides. */
  predicate TripleLess(x: (string, string, string), y: (string, string, string))
  {
    if x.0 != y.0 then StrLess(x.0, y.0)
    else if x.1 != y.1 then StrLess(x.1, y.1)
    else StrLess(x.2, y.2)
  }

  /** format_course (and server.py's format_course_code):
      "{} {:03d}{} {}-{:02d}". */
  function FormatCourse(id: Identity): string
  {
    id.department + " " + FormatPadded(id.courseNumber, 3) + id.courseCodeSuffix + " "
    + id.school + "-" + FormatPadded(id.section, 2)
  }

  /** For a valid course the readable code shows the course number as at
      least three digits and the section as at least two, each reading
      back as the original number. */
  lemma FormatCourseDigits(id: Identity)
    requires id.courseNumber > 0 && id.section > 0
    ensures var n := FormatPadded(id.courseNumber, 3);
            var s := FormatPadded(id.section, 2);
            && FormatCourse(id) == id.department + " " + n + id.courseCodeSuffix + " " + id.school + "-" + s
            && |n| >= 3 && AllDigits(n) && DigitsValue(n) == id.courseNumber
            && |s| >= 2 && AllDigits(s) && DigitsValue(s) == id.section
  {
    FormatPaddedValue(id.courseNumber, 3);
    FormatPaddedValue(id.section, 2);
  }

  // ---------------------------------------------------------------
  // Parsing a Portal / Lingk course code
  // ---------------------------------------------------------------

  /** The five groups of COURSE_REGEX; the optional section group is None
      when absent. The regular expression itself is not modelled: callers
      pass the groups of a successful match, or None for no match. */
  datatype CodeGroups = CodeGroups(
    department: string, number: string, suffix: string, school: string, section: Option<string>)

  /** A parsed course code: section None when the code has none. */
  datatype CourseInfo = CourseInfo(
    department: string, courseNumber: int, courseCodeSuffix: string, school: string, section: Option<int>)

  datatype ParseError =
    | MalformedCode | EmptyDepartment | DepartmentSlash | MalformedNumber
    | NonPositiveNumber | SuffixSlash | EmptySchool | SchoolSlash
    | MalformedSection | NonPositiveSection | SectionMissing | SectionUnexpected

  /** Python truthiness of the optional section group. */
  predicate HasSection(g: CodeGroups) { g.section.Some? && g.section.value != "" }

  /** The checks of parse_claremont_course_code after the match, in the
      source's order, up to (not including) the section. */
  function CheckCodeHead(g: CodeGroups): Result<int, ParseError>
  {
    if g.department == "" then Err(EmptyDepartment)
    else if '/' in g.department then Err(DepartmentSlash)
    else if ParseInt(g.number).None? then Err(MalformedNumber)
    else if ParseInt(g.number).value <= 0 then Err(NonPositiveNumber)
    else if '/' in g.suffix then Err(SuffixSlash)
    else if g.school == "" then Err(EmptySchool)
    else if '/' in g.school then Err(SchoolSlash)
    else Ok(ParseInt(g.number).value)
  }

  /** The section checks: a present section must be a positive integer. */
  function CheckSection(g: CodeGroups): Result<Option<int>, ParseError>
  {
    if !HasSection(g) then Ok(None)
    else if ParseInt(g.section.value).None? then Err(MalformedSection)
    else if ParseInt(g.section.value).value <= 0 then Err(NonPositiveSection)
    else Ok(Some(ParseInt(g.section.value).value))
  }

  /** parse_claremont_course_code of hyperschedule/libcourse.py. */
  function ParseClaremontCourseCode(m: Option<CodeGroups>): Result<CourseInfo, ParseError>
  {
    match m
    case None => Err(MalformedCode)
    case Some(g) =>
      match CheckCodeHead(g)
      case Err(e) => Err(e)
      case Ok(n) =>
        match CheckSection(g)
        case Err(e) => Err(e)
        case Ok(sec) => Ok(CourseInfo(g.department, n, g.suffix, g.school, sec))
  }

  /** The conditions under which a matched code parses. */
  predicate WellFormedGroups(g: CodeGroups)
  {
    && g.department != "" && '/' !in g.department
    && ParseInt(g.number).Some? && ParseInt(g.number).value > 0
    && '/' !in g.suffix && g.school != "" && '/' !in g.school
    && (HasSection(g) ==> ParseInt(g.section.value).Some? && ParseInt(g.section.value).value > 0)
  }

  /** Parsing succeeds exactly on well-formed groups; a success carries a
      positive number, no "/" in the string parts, a positive section when
      one is present and None when it is absent. */
  lemma ParseClaremontSpec(m: Option<CodeGroups>)
    ensures ParseClaremontCourseCode(m).Ok? <==> m.Some? && WellFormedGroups(m.value)
    ensures ParseClaremontCourseCode(m).Ok? ==>
              var info := ParseClaremontCourseCode(m).value;
              var g := m.value;
              && info.department == g.department && info.courseCodeSuffix == g.suffix && info.school == g.school
              && Some(info.courseNumber) == ParseInt(g.number) && info.courseNumber > 0
              && '/' !in info.department && '/' !in info.courseCodeSuffix && '/' !in info.school
              && (info.section.None? <==> !HasSection(g))
              && (info.section.Some? ==> info.section.value > 0 && Some(info.section.value) == ParseInt(g.section.value))
    ensures m.Some? && m.value.department != "" && '/' !in m.value.department
            && ParseInt(m.value.number).Some? && ParseInt(m.value.number).value <= 0
            ==> ParseClaremontCourseCode(m) == Err(NonPositiveNumber)
    ensures m.Some? && CheckCodeHead(m.value).Ok? && HasSection(m.value)
            && ParseInt(m.value.section.value).Some? && ParseInt(m.value.section.value).value <= 0
            ==> ParseClaremontCourseCode(m) == Err(NonPositiveSection)
  {
  }

  /** The identity a parsed code stands for once its section is forced to
      a number (the lingk modules force 0). */
  function InfoIdentity(info: CourseInfo, section: int): Identity
  {
    Identity(info.department, info.courseNumber, info.courseCodeSuffix, info.school, section)
  }

  /** A parsed code's key reads back to its identity: parsing guarantees
      the key round trip. */
  lemma ParsedKeyRoundTrip(m: Option<CodeGroups>, section: int)
    requires ParseClaremontCourseCode(m).Ok?
    ensures var id := InfoIdentity(ParseClaremontCourseCode(m).value, section);
            FromIndexKey(ToIndexKey(id)) == Some(IdentityRecord(id))
  {
    ParseClaremontSpec(m);
    IndexKeyRoundTrip(InfoIdentity(ParseClaremontCourseCode(m).value, section));
  }

  // ---------------------------------------------------------------
  // Terms
  // ---------------------------------------------------------------

  /** A term object: semester "FA" or "SP" and the year. */
  datatype Term = Term(semester: string, year: int)

  /** format_term: the semester immediately followed by the decimal year. */
  function FormatTerm(t: Term): string
  {
    t.semester + IntToString(t.year)
  }

  /** The Lingk term string can be read back: after the semester come
      exactly the year's digits. */
  lemma FormatTermReadBack(t: Term)
    ensures |FormatTerm(t)| > |t.semester|
    ensures FormatTerm(t)[..|t.semester|] == t.semester
    ensures ParseInt(FormatTerm(t)[|t.semester|..]) == Some(t.year)
  {
    assert FormatTerm(t)[|t.semester|..] == IntToString(t.year);
    IntToStringRoundTrip(t.year);
  }
}
