/** Course-code and term helpers shared by the Portal and Lingk scrapers
    (hyperschedule/scrapers/claremont/shared.py). The regular expressions
    are not modelled: a match is passed in as its groups, or None. */
module ClaremontShared {
  import opened Util
  import opened JsonValue
  import opened CourseKey

  // ---------------------------------------------------------------
  // parse_course_code
  // ---------------------------------------------------------------

  /** parse_course_code(course_code, with_section): the checks of
      libcourse's parser, with the agreement between the section group and
      `withSection` checked after the school and before the section. */
  function ParseCourseCode(m: Option<CodeGroups>, withSection: bool): Result<CourseInfo, ParseError>
  {
    match m
    case None => Err(MalformedCode)
    case Some(g) =>
      match CheckCodeHead(g)
      case Err(e) => Err(e)
      case Ok(n) =>
        if HasSection(g) != withSection then
          Err(if withSection then SectionMissing else SectionUnexpected)
        else
          match CheckSection(g)
          case Err(e) => Err(e)
          case Ok(sec) => Ok(CourseInfo(g.department, n, g.suffix, g.school, sec))
  }

  /** The code parses exactly when the groups are well formed and carry a
      section iff one is wanted; the parsed parts are the groups, with a
      positive number, no "/" in department, suffix or school, and a
      positive section exactly when `withSection`. */
  lemma ParseCourseCodeSpec(m: Option<CodeGroups>, withSection: bool)
    ensures ParseCourseCode(m, withSection).Ok?
            <==> m.Some? && WellFormedGroups(m.value) && HasSection(m.value) == withSection
    ensures ParseCourseCode(m, withSection).Ok? ==>
              var info := ParseCourseCode(m, withSection).value;
              var g := m.value;
              && info.department == g.department && info.courseCodeSuffix == g.suffix && info.school == g.school
              && Some(info.courseNumber) == ParseInt(g.number) && info.courseNumber > 0
              && '/' !in info.department && '/' !in info.courseCodeSuffix && '/' !in info.school
              && (info.section.Some? <==> withSection)
              && (info.section.Some? ==> info.section.value > 0 && Some(info.section.value) == ParseInt(g.section.value))
  {
  }

  /** A section whose presence disagrees with `withSection` is reported as
      missing or as unexpectedly present, once the head of the code is
      valid. */
  lemma SectionPresenceError(m: Option<CodeGroups>, withSection: bool)
    requires m.Some? && CheckCodeHead(m.value).Ok? && HasSection(m.value) != withSection
    ensures ParseCourseCode(m, withSection) == Err(if withSection then SectionMissing else SectionUnexpected)
  {
  }

  /** Asking for exactly the section presence the code has gives the
      parse of hyperschedule/libcourse.py, which has no presence check. */
  lemma AgreesWithLibcourse(m: Option<CodeGroups>)
    requires m.Some?
    ensures ParseCourseCode(m, HasSection(m.value)) == ParseClaremontCourseCode(m)
  {
  }

  // ---------------------------------------------------------------
  // Course info as a string or a list
  // ---------------------------------------------------------------

  /** Python truthiness of the section entry: present and not 0. */
  predicate SectionTruthy(info: CourseInfo)
  {
    info.section.Some? && info.section.value != 0
  }

  /** course_info_as_string: "{} {:03d}{} {}-{:02d}"; the source asserts a
      section is present. */
  function CourseInfoAsString(info: CourseInfo): (s: string)
    requires SectionTruthy(info)
    ensures s == FormatCourse(InfoIdentity(info, info.section.value))
  {
    info.department + " " + FormatPadded(info.courseNumber, 3) + info.courseCodeSuffix + " "
    + info.school + "-" + FormatPadded(info.section.value, 2)
  }

  /** A code parsed with a section prints as the department, the number
      padded to at least three digits, the suffix, the school and the
      section padded to at least two digits, and the padded numbers read
      back as the parsed values. */
  lemma CourseInfoAsStringDigits(m: Option<CodeGroups>)
    requires ParseCourseCode(m, true).Ok?
    ensures var info := ParseCourseCode(m, true).value;
            && SectionTruthy(info)
            && var n := FormatPadded(info.courseNumber, 3);
               var s := FormatPadded(info.section.value, 2);
               && CourseInfoAsString(info)
                  == info.department + " " + n + info.courseCodeSuffix + " " + info.school + "-" + s
               && |n| >= 3 && AllDigits(n) && DigitsValue(n) == info.courseNumber
               && |s| >= 2 && AllDigits(s) && DigitsValue(s) == info.section.value
  {
    ParseCourseCodeSpec(m, true);
    var info := ParseCourseCode(m, true).value;
    FormatCourseDigits(InfoIdentity(info, info.section.value));
  }

  /** course_info_as_list: [department, number, suffix, school] and the
      section when `withSection`; the source asserts a section is present
      in that case. */
  function CourseInfoAsList(info: CourseInfo, withSection: bool): (l: seq<Json>)
    requires withSection ==> SectionTruthy(info)
    ensures |l| == if withSection then 5 else 4
    ensures l[..4] == [JStr(info.department), JInt(info.courseNumber), JStr(info.courseCodeSuffix), JStr(info.school)]
    ensures withSection ==> l[4] == JInt(info.section.value)
  {
    var head := [JStr(info.department), JInt(info.courseNumber), JStr(info.courseCodeSuffix), JStr(info.school)];
    if withSection then head + [JInt(info.section.value)] else head
  }

  /** The mutual-exclusion key (no section) tells courses apart exactly by
      department, number, suffix and school. */
  lemma ExclusionKeyInjective(a: CourseInfo, b: CourseInfo)
    ensures CourseInfoAsList(a, false) == CourseInfoAsList(b, false)
            <==> a.department == b.department && a.courseNumber == b.courseNumber
                 && a.courseCodeSuffix == b.courseCodeSuffix && a.school == b.school
  {
    if CourseInfoAsList(a, false) == CourseInfoAsList(b, false) {
      assert CourseInfoAsList(a, false)[0] == CourseInfoAsList(b, false)[0];
      assert CourseInfoAsList(a, false)[1] == CourseInfoAsList(b, false)[1];
      assert CourseInfoAsList(a, false)[2] == CourseInfoAsList(b, false)[2];
      assert CourseInfoAsList(a, false)[3] == CourseInfoAsList(b, false)[3];
    }
  }

  /** The sort key (with section) lists the entries of the libcourse sort
      key of the same course, in the same order. */
  lemma SortListMatchesSortKey(info: CourseInfo)
    requires SectionTruthy(info)
    ensures var k := SortKey(InfoIdentity(info, info.section.value));
            CourseInfoAsList(info, true) == [JStr(k.0), JInt(k.1), JStr(k.2), JStr(k.3), JInt(k.4)]
  {
    var l := CourseInfoAsList(info, true);
    assert l == l[..4] + [l[4]];
  }

  // ---------------------------------------------------------------
  // Terms
  // ---------------------------------------------------------------

  /** The two groups of `(FA|SP)\s*(20[0-9]{2})`. */
  datatype TermGroups = TermGroups(season: string, year: string)

  /** What a match of the term regular expression guarantees about its
      groups. */
  predicate TermMatch(g: TermGroups)
  {
    && (g.season == "FA" || g.season == "SP")
    && |g.year| == 4 && g.year[0] == '2' && g.year[1] == '0' && AllDigits(g.year)
  }

  /** The dictionary returned by parse_term_code. */
  datatype TermInfo = TermInfo(year: int, fall: bool, spring: bool)

  datatype TermError = MalformedTerm

  /** parse_term_code: no match is an error; otherwise the year and which
      of the two seasons matched. */
  function ParseTermCode(m: Option<TermGroups>): (r: Result<TermInfo, TermError>)
    requires m.Some? ==> TermMatch(m.value)
  {
    match m
    case None => Err(MalformedTerm)
    case Some(g) => Ok(TermInfo(DigitsValue(g.year), g.season == "FA", g.season == "SP"))
  }

  /** A parsed term is fall or spring and never both, as the season group
      says, and its year is in 2000..2099 and is what the digits read. */
  lemma ParseTermCodeSpec(m: Option<TermGroups>)
    requires m.Some? ==> TermMatch(m.value)
    ensures ParseTermCode(m).Err? <==> m.None?
    ensures ParseTermCode(m).Ok? ==>
              var t := ParseTermCode(m).value;
              && t.fall != t.spring
              && (t.fall <==> m.value.season == "FA")
              && 2000 <= t.year <= 2099
              && ParseInt(m.value.year) == Some(t.year)
  {
    if m.Some? {
      var y := m.value.year;
      assert y[..3][..2][..1] == ['2'] && y[..3][..2] == y[..3][..2][..1] + ['0'];
      assert y[..3] == y[..3][..2] + [y[2]] && y == y[..3] + [y[3]];
      assert DigitsValue(y[..3][..2][..1]) == 2 && DigitsValue(y[..3][..2]) == 20;
      assert DigitsValue(y) == 2000 + 10 * DigitValue(y[2]) + DigitValue(y[3]);
      assert y[0] != '-';
    }
  }

  /** term_info_as_list: [year, spring], a sort key. */
  function TermInfoAsList(t: TermInfo): seq<Json>
  {
    [JInt(t.year), JBool(t.spring)]
  }

  /** The number Python compares an int or a bool by (False is 0, True
      is 1). */
  function KeyNumber(j: Json): int
  {
    match j
    case JInt(i) => i
    case JBool(b) => if b then 1 else 0
    case _ => 0
  }

  /** Python's `<` on lists of ints and bools: the first position where
      the numbers differ decides, and a proper prefix is smaller. */
  predicate NumberListLess(a: seq<Json>, b: seq<Json>)
    decreases |a|
  {
    |b| > 0 && (|a| == 0 || KeyNumber(a[0]) < KeyNumber(b[0])
                || (KeyNumber(a[0]) == KeyNumber(b[0]) && NumberListLess(a[1..], b[1..])))
  }

  /** The order of terms: Python's `<` on their term_info_as_list keys. */
  predicate TermKeyLess(a: TermInfo, b: TermInfo)
  {
    NumberListLess(TermInfoAsList(a), TermInfoAsList(b))
  }

  /** Within a year the fall term sorts before the spring term of the same
      year, and a later year always sorts later; equal keys are equal
      terms. */
  lemma TermKeyOrder(a: TermInfo, b: TermInfo)
    requires a.fall != a.spring && b.fall != b.spring
    ensures TermKeyLess(a, b) <==> a.year < b.year || (a.year == b.year && a.fall && b.spring)
    ensures TermInfoAsList(a) == TermInfoAsList(b) <==> a == b
  {
    var x, y := TermInfoAsList(a), TermInfoAsList(b);
    assert x[1..] == [JBool(a.spring)] && y[1..] == [JBool(b.spring)];
    assert x[1..][1..] == [] && y[1..][1..] == [];
    assert TermKeyLess(a, b) <==> a.year < b.year || (a.year == b.year && NumberListLess(x[1..], y[1..]));
  }

  /** term_info_as_display_name: "Fall Y" or "Spring Y". */
  function TermInfoAsDisplayName(t: TermInfo): string
  {
    (if t.fall then "Fall" else "Spring") + " " + IntToString(t.year)
  }

  /** The display name starts with the season's word and a space, and the
      rest reads back as the year. */
  lemma DisplayNameReadBack(t: TermInfo)
    ensures var name := TermInfoAsDisplayName(t);
            var w := if t.fall then "Fall " else "Spring ";
            && |name| > |w| && name[..|w|] == w
            && ParseInt(name[|w|..]) == Some(t.year)
  {
    var w := if t.fall then "Fall " else "Spring ";
    assert TermInfoAsDisplayName(t) == w + IntToString(t.year);
    assert TermInfoAsDisplayName(t)[|w|..] == IntToString(t.year);
    IntToStringRoundTrip(t.year);
  }
}
