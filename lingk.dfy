/** The course-description tables built from Lingk data: from the API's
    JSON (hyperschedule/scrapers/claremont/lingk.py, hyperschedule/liblingk.py
    and liblingk.py) and from the CSV export (lingk_csv_data_to_... and
    lingk_drive_data_to_...). All five share one loop shape; they differ in
    how a course code becomes a key and, for the CSV, in how a repeated key
    is resolved. Keys are computed by a `keyOf` function that stands for
    the regular-expression match followed by the parser. */
module LingkTables {
  import opened Util
  import opened JsonValue
  import opened CourseKey
  import opened ClaremontShared

  /** The ScrapeError conditions, and the two Python exceptions the model
      also reports as errors (see README). */
  datatype LingkError<K> =
    | NotMap | MissingData | DataNotList
    | EntryNotObject(idx: nat) | DescriptionNotString(idx: nat) | MissingCourseNumber(idx: nat)
    | CodeNotString(idx: nat) | BadCode(idx: nat, cause: ParseError) | Duplicate(key: K)
    | NoHeader | UnexpectedHeader(header: seq<string>) | MalformedRow(row: seq<string>)
    | NotEnough(count: nat)

  /** What one API entry or CSV row means on its own: skipped, an error,
      or a description for a key. */
  datatype Verdict<K> = Skip | Fail(error: LingkError<K>) | Entry(key: K, desc: string)

  /** The one code the API loops skip because Portal does not list it. */
  const Abroad: string := "ABROAD   HM"

  // ---------------------------------------------------------------
  // The API tables
  // ---------------------------------------------------------------

  /** `data["data"]` of a JSON map. */
  function Entries<K>(data: Json): Result<seq<Json>, LingkError<K>>
  {
    if !data.JObj? then Err(NotMap)
    else if "data" !in data.fields then Err(MissingData)
    else if !data.fields["data"].JArr? then Err(DataNotList)
    else Ok(data.fields["data"].items)
  }

  /** Python's `w in s` on strings. */
  predicate HasSubstring(s: string, w: string)
    decreases |s|
  {
    |w| <= |s| && (s[..|w|] == w || HasSubstring(s[1..], w))
  }

  /** `"description" not in course`: no such key in a map, no such item in
      a list, no such substring in a string. On any other value the test
      raises TypeError. */
  predicate NoDescription(course: Json)
  {
    || (course.JObj? && "description" !in course.fields)
    || (course.JArr? && JStr("description") !in course.items)
    || (course.JStr? && !HasSubstring(course.s, "description"))
  }

  /** The checks applied to the entry at index `idx`, in the source's order.
      An entry that is not a map and passes the `in` test makes
      `course["description"]` (or the test itself) raise TypeError,
      reported as EntryNotObject. */
  function Classify<K>(idx: nat, course: Json, keyOf: string -> Result<K, ParseError>): Verdict<K>
  {
    if NoDescription(course) then Skip
    else if !course.JObj? then Fail(EntryNotObject(idx))
    else if !course.fields["description"].JStr? then Fail(DescriptionNotString(idx))
    else if "courseNumber" !in course.fields then Fail(MissingCourseNumber(idx))
    else if course.fields["courseNumber"] == JStr(Abroad) then Skip
    else if !course.fields["courseNumber"].JStr? then Fail(CodeNotString(idx))
    else match keyOf(course.fields["courseNumber"].s)
      case Err(e) => Fail(BadCode(idx, e))
      case Ok(k) => Entry(k, course.fields["description"].s)
  }

  /** What one entry means: it is skipped exactly when it has no
      description or its code is "ABROAD   HM"; otherwise it is refused or
      gives the key of its code with its description, unchanged. */
  lemma ClassifySpec<K>(idx: nat, course: Json, keyOf: string -> Result<K, ParseError>)
    ensures Classify(idx, course, keyOf).Skip? <==>
              || NoDescription(course)
              || (&& course.JObj? && course.fields["description"].JStr?
                  && "courseNumber" in course.fields && course.fields["courseNumber"] == JStr(Abroad))
    ensures Classify(idx, course, keyOf).Entry? ==>
              && course.JObj? && course.fields["courseNumber"].JStr?
              && course.fields["courseNumber"] != JStr(Abroad)
              && keyOf(course.fields["courseNumber"].s) == Ok(Classify(idx, course, keyOf).key)
              && course.fields["description"] == JStr(Classify(idx, course, keyOf).desc)
    ensures Classify(idx, course, keyOf).Fail? && course.JObj? ==> "description" in course.fields
  {
  }

  /** The verdicts on the entries, in order. */
  function Verdicts<K>(items: seq<Json>, keyOf: string -> Result<K, ParseError>): (vs: seq<Verdict<K>>)
    ensures |vs| == |items|
    ensures forall i :: 0 <= i < |items| ==> vs[i] == Classify(i, items[i], keyOf)
  {
    seq(|items|, i requires 0 <= i < |items| => Classify(i, items[i], keyOf))
  }

  /** One pass of the API loop: a repeated key must repeat its
      description. */
  function ApiStep<K(==)>(index: map<K, string>, v: Verdict<K>): Result<map<K, string>, LingkError<K>>
  {
    match v
    case Skip => Ok(index)
    case Fail(e) => Err(e)
    case Entry(k, d) => if k in index && index[k] != d then Err(Duplicate(k)) else Ok(index[k := d])
  }

  /** The table after the loop has run over entries with verdicts `vs`. */
  function ApiFold<K(==)>(vs: seq<Verdict<K>>): Result<map<K, string>, LingkError<K>>
    decreases |vs|
  {
    if vs == [] then Ok(map[])
    else
      match ApiFold(vs[..|vs| - 1])
      case Err(e) => Err(e)
      case Ok(index) => ApiStep(index, vs[|vs| - 1])
  }

  /** lingk_api_data_to_course_descriptions / lingk_data_to_course_descriptions */
  function ApiDescriptions<K(==)>(data: Json, keyOf: string -> Result<K, ParseError>): Result<map<K, string>, LingkError<K>>
  {
    match Entries(data)
    case Err(e) => Err(e)
    case Ok(items) => ApiFold(Verdicts(items, keyOf))
  }

  /** No entry fails a check on its own. */
  predicate Clean<K>(vs: seq<Verdict<K>>)
  {
    forall i :: 0 <= i < |vs| ==> !vs[i].Fail?
  }

  /** Two entries give one key different descriptions. */
  ghost predicate Conflict<K>(vs: seq<Verdict<K>>)
  {
    exists i, j :: 0 <= i < j < |vs| && vs[i].Entry? && vs[j].Entry? && vs[i].key == vs[j].key && vs[i].desc != vs[j].desc
  }

  /** `index` holds every entry's description under its key, and nothing
      that no entry gave it. */
  ghost predicate Indexed<K>(vs: seq<Verdict<K>>, index: map<K, string>)
  {
    && (forall i :: 0 <= i < |vs| && vs[i].Entry? ==> vs[i].key in index && index[vs[i].key] == vs[i].desc)
    && (forall k :: k in index ==> exists i :: 0 <= i < |vs| && vs[i] == Entry(k, index[k]))
  }

  /** Once the loop has failed it stays failed. */
  lemma {:induction false} ApiFoldStaysFailed<K>(vs: seq<Verdict<K>>, i: nat)
    requires i <= |vs| && ApiFold(vs[..i]).Err?
    ensures ApiFold(vs) == ApiFold(vs[..i])
    decreases |vs|
  {
    if i < |vs| {
      var n := |vs| - 1;
      assert vs[..n][..i] == vs[..i];
      ApiFoldStaysFailed(vs[..n], i);
    } else {
      assert vs[..i] == vs;
    }
  }

  /** The API table is built exactly when no entry fails a check and no two
      entries give one key different descriptions; the table then maps
      every entry's key to its description and holds nothing else. */
  lemma {:induction false} ApiFoldSpec<K>(vs: seq<Verdict<K>>)
    ensures ApiFold(vs).Ok? <==> Clean(vs) && !Conflict(vs)
    ensures ApiFold(vs).Ok? ==> Indexed(vs, ApiFold(vs).value)
    decreases |vs|
  {
    if vs != [] {
      var n := |vs| - 1;
      var pre := vs[..n];
      ApiFoldSpec(pre);
      if !Clean(pre) {
        var i :| 0 <= i < n && pre[i].Fail?;
        assert vs[i].Fail?;
      } else if Conflict(pre) {
        var i, j :| 0 <= i < j < n && pre[i].Entry? && pre[j].Entry? && pre[i].key == pre[j].key && pre[i].desc != pre[j].desc;
        assert vs[i] == pre[i] && vs[j] == pre[j];
      } else {
        var index := ApiFold(pre).value;
        assert ApiFold(vs) == ApiStep(index, vs[n]);
        match vs[n]
        case Skip =>
          ApiKeepStep(vs, index);
        case Fail(_) =>
          assert vs[n].Fail?;
        case Entry(k, d) =>
          if k in index && index[k] != d {
            ApiClashStep(vs, index);
          } else {
            ApiKeepStep(vs, index);
          }
      }
    }
  }

  /** The table `index[k := d]` after an entry `(k, d)`, or `index` after a
      skipped one. */
  function AfterStep<K>(index: map<K, string>, v: Verdict<K>): map<K, string>
  {
    if v.Entry? then index[v.key := v.desc] else index
  }

  /** An entry that is skipped, or that agrees with the table so far, keeps
      the entries clean, free of conflicts and indexed. */
  lemma ApiKeepStep<K>(vs: seq<Verdict<K>>, index: map<K, string>)
    requires |vs| > 0
    requires var v := vs[|vs| - 1]; v.Skip? || (v.Entry? && (v.key in index ==> index[v.key] == v.desc))
    requires var pre := vs[..|vs| - 1]; Clean(pre) && !Conflict(pre) && Indexed(pre, index)
    ensures Clean(vs) && !Conflict(vs) && Indexed(vs, AfterStep(index, vs[|vs| - 1]))
  {
    var n := |vs| - 1;
    var pre := vs[..n];
    var index' := AfterStep(index, vs[n]);
    forall i | 0 <= i < |vs| ensures !vs[i].Fail? {
      if i < n {
        assert pre[i] == vs[i];
      }
    }
    forall i, j | 0 <= i < j < |vs| && vs[i].Entry? && vs[j].Entry? && vs[i].key == vs[j].key
      ensures vs[i].desc == vs[j].desc
    {
      assert pre[i] == vs[i];
      if j < n {
        assert pre[j] == vs[j];
      }
    }
    forall i | 0 <= i < |vs| && vs[i].Entry? ensures vs[i].key in index' && index'[vs[i].key] == vs[i].desc {
      if i < n {
        assert pre[i] == vs[i];
      }
    }
    forall k | k in index' ensures exists i :: 0 <= i < |vs| && vs[i] == Entry(k, index'[k]) {
      if vs[n].Entry? && k == vs[n].key {
        assert vs[n] == Entry(k, index'[k]);
      } else {
        var i :| 0 <= i < n && pre[i] == Entry(k, index[k]);
        assert vs[i] == Entry(k, index'[k]);
      }
    }
  }

  /** An entry that gives a key already in the table a different
      description is a conflict. */
  lemma ApiClashStep<K>(vs: seq<Verdict<K>>, index: map<K, string>)
    requires |vs| > 0
    requires var v := vs[|vs| - 1]; v.Entry? && v.key in index && index[v.key] != v.desc
    requires Indexed(vs[..|vs| - 1], index)
    ensures Conflict(vs)
  {
    var n := |vs| - 1;
    var k := vs[n].key;
    var i :| 0 <= i < n && vs[..n][i] == Entry(k, index[k]);
    assert vs[i] == Entry(k, index[k]);
  }

  /** A repeated key with a different description is refused, and a repeat
      of the same description leaves the table as it was. */
  lemma ApiDuplicates<K>(vs: seq<Verdict<K>>, i: nat, j: nat)
    requires i < j < |vs| && vs[i].Entry? && vs[j].Entry? && vs[i].key == vs[j].key
    ensures vs[i].desc != vs[j].desc ==> ApiFold(vs).Err?
    ensures vs[i].desc == vs[j].desc && ApiFold(vs[..j]).Ok? ==> ApiFold(vs[..j + 1]) == ApiFold(vs[..j])
  {
    if vs[i].desc != vs[j].desc {
      ApiFoldSpec(vs);
      assert Conflict(vs);
    } else if ApiFold(vs[..j]).Ok? {
      var pre := vs[..j + 1];
      assert pre[..j] == vs[..j];
      var index := ApiFold(vs[..j]).value;
      ApiFoldSpec(vs[..j]);
      assert vs[..j][i] == vs[i];
      var k := vs[j].key;
      assert k in index && index[k] == vs[j].desc;
      assert ApiFold(pre) == ApiStep(index, pre[j]);
      assert index[k := vs[j].desc] == index;
    }
  }

  /** A skipped entry or row contributes nothing: removing it leaves the
      outcome of either loop as it was. */
  lemma {:induction false} SkipIrrelevant<K>(vs: seq<Verdict<K>>, i: nat, keepLonger: bool)
    requires i < |vs| && vs[i].Skip?
    ensures ApiFold(vs[..i] + vs[i + 1..]) == ApiFold(vs)
    ensures CsvFold(vs[..i] + vs[i + 1..], keepLonger) == CsvFold(vs, keepLonger)
    decreases |vs|
  {
    var n := |vs| - 1;
    var ws := vs[..i] + vs[i + 1..];
    if i == n {
      assert ws == vs[..n];
    } else {
      SkipIrrelevant(vs[..n], i, keepLonger);
      assert ws[..|ws| - 1] == vs[..n][..i] + vs[..n][i + 1..];
      assert ws[|ws| - 1] == vs[n];
    }
  }

  /** The API loop: `desc_index` grows entry by entry and the first
      failing check ends it. */
  method ApiLoop<K(==)>(data: Json, keyOf: string -> Result<K, ParseError>) returns (r: Result<map<K, string>, LingkError<K>>)
    ensures r == ApiDescriptions(data, keyOf)
  {
    if !data.JObj? {
      return Err(NotMap);
    }
    if "data" !in data.fields {
      return Err(MissingData);
    }
    if !data.fields["data"].JArr? {
      return Err(DataNotList);
    }
    var items := data.fields["data"].items;
    ghost var vs := Verdicts(items, keyOf);
    var index: map<K, string> := map[];
    var i := 0;
    while i < |items|
      invariant 0 <= i <= |items|
      invariant ApiFold(vs[..i]) == Ok(index)
      decreases |items| - i
    {
      assert vs[..i + 1][..i] == vs[..i];
      var v := Classify(i, items[i], keyOf);
      assert vs[i] == v;
      match v {
        case Skip =>
        case Fail(e) =>
          ApiFoldStaysFailed(vs, i + 1);
          return Err(e);
        case Entry(k, d) =>
          if k in index && index[k] != d {
            ApiFoldStaysFailed(vs, i + 1);
            return Err(Duplicate(k));
          }
          index := index[k := d];
      }
      i := i + 1;
    }
    assert vs[..i] == vs;
    r := Ok(index);
  }

  // ---------------------------------------------------------------
  // The CSV tables
  // ---------------------------------------------------------------

  /** `header.index(name)`: the first position of `name`. */
  function IndexOf(header: seq<string>, name: string): (i: nat)
    requires name in header
    ensures i < |header| && header[i] == name && name !in header[..i]
  {
    if header[0] == name then 0
    else
      assert name in header[1..];
      var j := IndexOf(header[1..], name);
      assert header[..j + 1] == [header[0]] + header[1..][..j];
      j + 1
  }

  /** The checks applied to one data row: blank rows, rows whose code does
      not parse and rows with an empty description are skipped, a row of
      the wrong length is an error, and a description is stored with its
      whitespace collapsed. */
  function RowVerdict<K>(row: seq<string>, width: nat, ci: nat, di: nat, keyOf: string -> Result<K, ParseError>): Verdict<K>
    requires ci < width && di < width
  {
    if row == [] || IsSpaceString(Concat(row)) then Skip
    else if |row| != width then Fail(MalformedRow(row))
    else match keyOf(row[ci])
      case Err(_) => Skip
      case Ok(k) => if row[di] == "" then Skip else Entry(k, CollapseSpace(row[di]))
  }

  /** The verdicts on the data rows, in order. */
  function RowVerdicts<K>(rows: seq<seq<string>>, width: nat, ci: nat, di: nat, keyOf: string -> Result<K, ParseError>)
    : (vs: seq<Verdict<K>>)
    requires ci < width && di < width
    ensures |vs| == |rows|
    ensures forall i :: 0 <= i < |rows| ==> vs[i] == RowVerdict(rows[i], width, ci, di, keyOf)
  {
    seq(|rows|, i requires 0 <= i < |rows| => RowVerdict(rows[i], width, ci, di, keyOf))
  }

  /** The description stored for a key: the new one, or, when keeping the
      longer one, the old one if it is strictly longer (`max` returns its
      first argument on a tie). */
  function Keep<K(==)>(table: map<K, string>, k: K, d: string, keepLonger: bool): string
  {
    if keepLonger && k in table && |table[k]| > |d| then table[k] else d
  }

  function CsvStep<K(==)>(table: map<K, string>, v: Verdict<K>, keepLonger: bool): Result<map<K, string>, LingkError<K>>
  {
    match v
    case Skip => Ok(table)
    case Fail(e) => Err(e)
    case Entry(k, d) => Ok(table[k := Keep(table, k, d, keepLonger)])
  }

  /** The table after the loop has run over rows with verdicts `vs`. */
  function CsvFold<K(==)>(vs: seq<Verdict<K>>, keepLonger: bool): Result<map<K, string>, LingkError<K>>
    decreases |vs|
  {
    if vs == [] then Ok(map[])
    else
      match CsvFold(vs[..|vs| - 1], keepLonger)
      case Err(e) => Err(e)
      case Ok(table) => CsvStep(table, vs[|vs| - 1], keepLonger)
  }

  /** lingk_csv_data_to_course_descriptions (`keepLonger` false) and
      lingk_drive_data_to_course_descriptions (`keepLonger` true). */
  function CsvDescriptions<K(==)>(data: seq<seq<string>>, keyOf: string -> Result<K, ParseError>, keepLonger: bool)
    : Result<map<K, string>, LingkError<K>>
  {
    if data == [] then Err(NoHeader)
    else
      var header := data[0];
      if "courseNumber" !in header || "description" !in header then Err(UnexpectedHeader(header))
      else
        var vs := RowVerdicts(data[1..], |header|, IndexOf(header, "courseNumber"), IndexOf(header, "description"), keyOf);
        match CsvFold(vs, keepLonger)
        case Err(e) => Err(e)
        case Ok(table) => if |table| < 100 then Err(NotEnough(|table|)) else Ok(table)
  }

  /** Once the loop has failed it stays failed. */
  lemma {:induction false} CsvFoldStaysFailed<K>(vs: seq<Verdict<K>>, i: nat, keepLonger: bool)
    requires i <= |vs| && CsvFold(vs[..i], keepLonger).Err?
    ensures CsvFold(vs, keepLonger) == CsvFold(vs[..i], keepLonger)
    decreases |vs|
  {
    if i < |vs| {
      var n := |vs| - 1;
      assert vs[..n][..i] == vs[..i];
      CsvFoldStaysFailed(vs[..n], i, keepLonger);
    } else {
      assert vs[..i] == vs;
    }
  }

  /** Row `i` gives key `k` the description `d`, and every later row with
      key `k` loses to it: there is none when the later row overwrites, and
      each is strictly shorter when the longer description is kept. */
  ghost predicate Wins<K>(vs: seq<Verdict<K>>, keepLonger: bool, i: nat, k: K, d: string)
  {
    && i < |vs| && vs[i] == Entry(k, d)
    && forall j :: i < j < |vs| && vs[j].Entry? && vs[j].key == k ==> keepLonger && |vs[j].desc| < |d|
  }

  /** What the CSV table holds: every row's key, with (when keeping the
      longer one) a description at least as long as the row's; and for each
      key the description of the row that wins it. */
  ghost predicate Tabled<K>(vs: seq<Verdict<K>>, keepLonger: bool, table: map<K, string>)
  {
    && (forall i :: 0 <= i < |vs| && vs[i].Entry? ==>
          vs[i].key in table && (keepLonger ==> |vs[i].desc| <= |table[vs[i].key]|))
    && (forall k :: k in table ==> exists i :: Wins(vs, keepLonger, i, k, table[k]))
  }

  /** The CSV loop fails exactly on a row that fails its own check (one of
      the wrong length); otherwise the table is as Tabled describes. */
  lemma {:induction false} CsvFoldSpec<K>(vs: seq<Verdict<K>>, keepLonger: bool)
    ensures CsvFold(vs, keepLonger).Ok? <==> Clean(vs)
    ensures CsvFold(vs, keepLonger).Ok? ==> Tabled(vs, keepLonger, CsvFold(vs, keepLonger).value)
    decreases |vs|
  {
    if vs != [] {
      var n := |vs| - 1;
      var pre := vs[..n];
      CsvFoldSpec(pre, keepLonger);
      if CsvFold(pre, keepLonger).Err? {
        var i :| 0 <= i < n && pre[i].Fail?;
        assert vs[i].Fail?;
      } else {
        var table := CsvFold(pre, keepLonger).value;
        assert CsvFold(vs, keepLonger) == CsvStep(table, vs[n], keepLonger);
        if vs[n].Fail? {
          assert !Clean(vs);
        } else {
          CsvStepTabled(vs, keepLonger, table);
        }
      }
    }
  }

  /** The table after a row that does not fail. */
  function CsvAfter<K>(table: map<K, string>, v: Verdict<K>, keepLonger: bool): map<K, string>
  {
    if v.Entry? then table[v.key := Keep(table, v.key, v.desc, keepLonger)] else table
  }

  /** The induction step of CsvFoldSpec for a row that does not fail. */
  lemma CsvStepTabled<K>(vs: seq<Verdict<K>>, keepLonger: bool, table: map<K, string>)
    requires |vs| > 0 && !vs[|vs| - 1].Fail?
    requires var pre := vs[..|vs| - 1]; Clean(pre) && Tabled(pre, keepLonger, table)
    ensures Clean(vs) && Tabled(vs, keepLonger, CsvAfter(table, vs[|vs| - 1], keepLonger))
  {
    var n := |vs| - 1;
    var pre := vs[..n];
    var table' := CsvAfter(table, vs[n], keepLonger);
    forall i | 0 <= i < |vs| ensures !vs[i].Fail? {
      if i < n {
        assert pre[i] == vs[i];
      }
    }
    forall i | 0 <= i < |vs| && vs[i].Entry?
      ensures vs[i].key in table' && (keepLonger ==> |vs[i].desc| <= |table'[vs[i].key]|)
    {
      if i < n {
        assert pre[i] == vs[i];
      }
    }
    forall k | k in table' ensures exists i :: Wins(vs, keepLonger, i, k, table'[k]) {
      var i := CsvStepWinner(vs, keepLonger, table, k);
    }
  }

  /** The row that wins key `k` after one more row that does not fail. */
  lemma CsvStepWinner<K>(vs: seq<Verdict<K>>, keepLonger: bool, table: map<K, string>, k: K) returns (i: nat)
    requires |vs| > 0 && !vs[|vs| - 1].Fail?
    requires Tabled(vs[..|vs| - 1], keepLonger, table)
    requires k in CsvAfter(table, vs[|vs| - 1], keepLonger)
    ensures Wins(vs, keepLonger, i, k, CsvAfter(table, vs[|vs| - 1], keepLonger)[k])
  {
    var n := |vs| - 1;
    var pre := vs[..n];
    var table' := CsvAfter(table, vs[n], keepLonger);
    if vs[n].Entry? && k == vs[n].key && table'[k] == vs[n].desc {
      i := n;
    } else {
      i :| Wins(pre, keepLonger, i, k, table[k]);
      assert table'[k] == table[k];
      assert vs[i] == pre[i];
      forall j | i < j < |vs| && vs[j].Entry? && vs[j].key == k
        ensures keepLonger && |vs[j].desc| < |table[k]|
      {
        if j < n {
          assert pre[j] == vs[j];
        }
      }
    }
  }

  /** Every stored description has its whitespace collapsed. */
  lemma CsvValuesCollapsed<K>(rows: seq<seq<string>>, width: nat, ci: nat, di: nat,
                              keyOf: string -> Result<K, ParseError>, keepLonger: bool)
    requires ci < width && di < width
    requires CsvFold(RowVerdicts(rows, width, ci, di, keyOf), keepLonger).Ok?
    ensures var table := CsvFold(RowVerdicts(rows, width, ci, di, keyOf), keepLonger).value;
            forall k :: k in table ==> Collapsed(table[k])
  {
    var vs := RowVerdicts(rows, width, ci, di, keyOf);
    forall i | 0 <= i < |vs| && vs[i].Entry? ensures Collapsed(vs[i].desc) {
      RowEntryCollapsed(rows[i], width, ci, di, keyOf);
    }
    TableValues(vs, keepLonger);
  }

  /** Every description the loop stores is the description of some row. */
  lemma TableValues<K>(vs: seq<Verdict<K>>, keepLonger: bool)
    requires CsvFold(vs, keepLonger).Ok?
    requires forall i :: 0 <= i < |vs| && vs[i].Entry? ==> Collapsed(vs[i].desc)
    ensures forall k :: k in CsvFold(vs, keepLonger).value ==> Collapsed(CsvFold(vs, keepLonger).value[k])
  {
    CsvFoldSpec(vs, keepLonger);
    var table := CsvFold(vs, keepLonger).value;
    forall k | k in table ensures Collapsed(table[k]) {
      var i: nat :| Wins(vs, keepLonger, i, k, table[k]);
      assert vs[i].desc == table[k];
    }
  }

  /** A row's stored description is its description with whitespace
      collapsed. */
  lemma RowEntryCollapsed<K>(row: seq<string>, width: nat, ci: nat, di: nat, keyOf: string -> Result<K, ParseError>)
    requires ci < width && di < width
    requires RowVerdict(row, width, ci, di, keyOf).Entry?
    ensures Collapsed(RowVerdict(row, width, ci, di, keyOf).desc)
  {
    CollapseSpaceSpec(row[di]);
  }

  /** The only error a CSV row can raise is a malformed row. */
  lemma {:induction false} CsvFailIsMalformed<K>(rows: seq<seq<string>>, width: nat, ci: nat, di: nat,
                                                  keyOf: string -> Result<K, ParseError>, keepLonger: bool)
    requires ci < width && di < width
    ensures CsvFold(RowVerdicts(rows, width, ci, di, keyOf), keepLonger).Err? ==>
              CsvFold(RowVerdicts(rows, width, ci, di, keyOf), keepLonger).error.MalformedRow?
    decreases |rows|
  {
    if rows != [] {
      var n := |rows| - 1;
      CsvFailIsMalformed(rows[..n], width, ci, di, keyOf, keepLonger);
      assert RowVerdicts(rows, width, ci, di, keyOf)[..n] == RowVerdicts(rows[..n], width, ci, di, keyOf);
    }
  }

  /** The header must name both columns, and a table with fewer than 100
      keys is refused: a table returned has at least 100 keys. */
  lemma CsvHeaderSpec<K>(data: seq<seq<string>>, keyOf: string -> Result<K, ParseError>, keepLonger: bool)
    ensures data == [] ==> CsvDescriptions(data, keyOf, keepLonger) == Err(NoHeader)
    ensures data != [] && ("courseNumber" !in data[0] || "description" !in data[0])
            ==> CsvDescriptions(data, keyOf, keepLonger) == Err(UnexpectedHeader(data[0]))
    ensures CsvDescriptions(data, keyOf, keepLonger).Ok? ==> |CsvDescriptions(data, keyOf, keepLonger).value| >= 100
  {
  }

  /** Under a good header, a row that is neither blank nor of the header's
      width is refused, and that is the only way to get MalformedRow. */
  lemma CsvMalformedSpec<K>(data: seq<seq<string>>, keyOf: string -> Result<K, ParseError>, keepLonger: bool)
    ensures data != [] && "courseNumber" in data[0] && "description" in data[0] ==>
              (CsvDescriptions(data, keyOf, keepLonger).Err? && CsvDescriptions(data, keyOf, keepLonger).error.MalformedRow?
               <==> BadRow(data[1..], |data[0]|))
  {
    if data != [] && "courseNumber" in data[0] && "description" in data[0] {
      var header := data[0];
      var ci, di := IndexOf(header, "courseNumber"), IndexOf(header, "description");
      CsvFailIsMalformed(data[1..], |header|, ci, di, keyOf, keepLonger);
      CsvFailsOnBadRow(data[1..], |header|, ci, di, keyOf, keepLonger);
    }
  }

  /** Some row is neither blank nor of the header's width. */
  predicate BadRow(rows: seq<seq<string>>, width: nat)
  {
    exists i :: 0 <= i < |rows| && rows[i] != [] && !IsSpaceString(Concat(rows[i])) && |rows[i]| != width
  }

  /** The CSV loop fails exactly when some row is neither blank nor of the
      header's width. */
  lemma CsvFailsOnBadRow<K>(rows: seq<seq<string>>, width: nat, ci: nat, di: nat,
                            keyOf: string -> Result<K, ParseError>, keepLonger: bool)
    requires ci < width && di < width
    ensures CsvFold(RowVerdicts(rows, width, ci, di, keyOf), keepLonger).Err? <==> BadRow(rows, width)
  {
    var vs := RowVerdicts(rows, width, ci, di, keyOf);
    CsvFoldSpec(vs, keepLonger);
    if BadRow(rows, width) {
      var i :| 0 <= i < |rows| && rows[i] != [] && !IsSpaceString(Concat(rows[i])) && |rows[i]| != width;
      assert vs[i].Fail?;
    }
    if !Clean(vs) {
      var i :| 0 <= i < |vs| && vs[i].Fail?;
      assert vs[i] == RowVerdict(rows[i], width, ci, di, keyOf);
    }
  }

  /** The CSV loop: `desc_map` is updated row by row, and the size check
      follows. */
  method CsvLoop<K(==)>(data: seq<seq<string>>, keyOf: string -> Result<K, ParseError>, keepLonger: bool)
    returns (r: Result<map<K, string>, LingkError<K>>)
    ensures r == CsvDescriptions(data, keyOf, keepLonger)
  {
    if data == [] {
      return Err(NoHeader);
    }
    var header, rows := data[0], data[1..];
    if "courseNumber" !in header || "description" !in header {
      return Err(UnexpectedHeader(header));
    }
    var ci, di := IndexOf(header, "courseNumber"), IndexOf(header, "description");
    ghost var vs := RowVerdicts(rows, |header|, ci, di, keyOf);
    var table: map<K, string> := map[];
    var i := 0;
    while i < |rows|
      invariant 0 <= i <= |rows|
      invariant CsvFold(vs[..i], keepLonger) == Ok(table)
      decreases |rows| - i
    {
      assert vs[..i + 1][..i] == vs[..i];
      var v := RowVerdict(rows[i], |header|, ci, di, keyOf);
      assert vs[i] == v;
      match v {
        case Skip =>
        case Fail(e) =>
          CsvFoldStaysFailed(vs, i + 1, keepLonger);
          return Err(e);
        case Entry(k, d) =>
          var description := d;
          if keepLonger && k in table && |table[k]| > |description| {
            description := table[k];
          }
          table := table[k := description];
      }
      i := i + 1;
    }
    assert vs[..i] == vs;
    if |table| < 100 {
      return Err(NotEnough(|table|));
    }
    r := Ok(table);
  }

  // ---------------------------------------------------------------
  // The keys of the three modules
  // ---------------------------------------------------------------

  /** hyperschedule/scrapers/claremont/lingk.py: the mutual-exclusion list
      of parse_course_code(code, with_section=False). */
  function ClaremontKeyOf(matcher: string -> Option<CodeGroups>, code: string): Result<seq<Json>, ParseError>
  {
    match ParseCourseCode(matcher(code), false)
    case Err(e) => Err(e)
    case Ok(info) => Ok(CourseInfoAsList(info, false))
  }

  function ClaremontKey(matcher: string -> Option<CodeGroups>): string -> Result<seq<Json>, ParseError>
  {
    code => ClaremontKeyOf(matcher, code)
  }

  /** hyperschedule/liblingk.py and liblingk.py: the index key of
      parse_claremont_course_code(code) with the section set to 0. */
  function IndexKeyOf(matcher: string -> Option<CodeGroups>, code: string): Result<string, ParseError>
  {
    match ParseClaremontCourseCode(matcher(code))
    case Err(e) => Err(e)
    case Ok(info) => Ok(ToIndexKey(InfoIdentity(info, 0)))
  }

  function IndexKey(matcher: string -> Option<CodeGroups>): string -> Result<string, ParseError>
  {
    code => IndexKeyOf(matcher, code)
  }

  /** A Claremont key is the department, number, suffix and school of a
      code that parsed without a section. */
  lemma ClaremontKeySpec(matcher: string -> Option<CodeGroups>, code: string)
    ensures ClaremontKeyOf(matcher, code).Ok? <==> ParseCourseCode(matcher(code), false).Ok?
    ensures ClaremontKeyOf(matcher, code).Ok? ==>
              var info := ParseCourseCode(matcher(code), false).value;
              && info.section.None?
              && ClaremontKeyOf(matcher, code).value
                 == [JStr(info.department), JInt(info.courseNumber), JStr(info.courseCodeSuffix), JStr(info.school)]
  {
    ParseCourseCodeSpec(matcher(code), false);
  }

  /** An index key reads back as the parsed course with section 0. */
  lemma IndexKeyReadsBack(matcher: string -> Option<CodeGroups>, code: string)
    ensures IndexKeyOf(matcher, code).Ok? <==> ParseClaremontCourseCode(matcher(code)).Ok?
    ensures IndexKeyOf(matcher, code).Ok? ==>
              var id := InfoIdentity(ParseClaremontCourseCode(matcher(code)).value, 0);
              FromIndexKey(IndexKeyOf(matcher, code).value) == Some(IdentityRecord(id))
  {
    if IndexKeyOf(matcher, code).Ok? {
      ParsedKeyRoundTrip(matcher(code), 0);
    }
  }

  /** Two codes share an index key exactly when they parse to the same
      department, number, suffix and school. */
  lemma IndexKeySame(matcher: string -> Option<CodeGroups>, a: string, b: string)
    requires IndexKeyOf(matcher, a).Ok? && IndexKeyOf(matcher, b).Ok?
    ensures var x, y := ParseClaremontCourseCode(matcher(a)).value, ParseClaremontCourseCode(matcher(b)).value;
            IndexKeyOf(matcher, a).value == IndexKeyOf(matcher, b).value
            <==> x.department == y.department && x.courseNumber == y.courseNumber
                 && x.courseCodeSuffix == y.courseCodeSuffix && x.school == y.school
  {
    var x, y := ParseClaremontCourseCode(matcher(a)).value, ParseClaremontCourseCode(matcher(b)).value;
    ParseClaremontSpec(matcher(a));
    ParseClaremontSpec(matcher(b));
    var ix, iy := InfoIdentity(x, 0), InfoIdentity(y, 0);
    assert IndexKeyOf(matcher, a).value == ToIndexKey(ix) && IndexKeyOf(matcher, b).value == ToIndexKey(iy);
    if ToIndexKey(ix) == ToIndexKey(iy) {
      IndexKeyInjective(ix, iy);
    }
  }

  // ---------------------------------------------------------------
  // The five entry points
  // ---------------------------------------------------------------

  /** claremont lingk_api_data_to_course_descriptions(data) */
  method ClaremontApiDescriptions(data: Json, matcher: string -> Option<CodeGroups>)
    returns (r: Result<map<seq<Json>, string>, LingkError<seq<Json>>>)
    ensures r == ApiDescriptions(data, ClaremontKey(matcher))
  {
    r := ApiLoop(data, ClaremontKey(matcher));
  }

  /** claremont lingk_csv_data_to_course_descriptions(data): a later row
      overwrites an earlier one. */
  method ClaremontCsvDescriptions(data: seq<seq<string>>, matcher: string -> Option<CodeGroups>)
    returns (r: Result<map<seq<Json>, string>, LingkError<seq<Json>>>)
    ensures r == CsvDescriptions(data, ClaremontKey(matcher), false)
  {
    r := CsvLoop(data, ClaremontKey(matcher), false);
  }

  /** hyperschedule/liblingk.py lingk_api_data_to_course_descriptions(data,
      lingk_term): the term is not used. */
  method HyperscheduleApiDescriptions(data: Json, lingkTerm: string, matcher: string -> Option<CodeGroups>)
    returns (r: Result<map<string, string>, LingkError<string>>)
    ensures r == ApiDescriptions(data, IndexKey(matcher))
  {
    r := ApiLoop(data, IndexKey(matcher));
  }

  /** hyperschedule/liblingk.py lingk_drive_data_to_course_descriptions(data,
      term): the longer description wins; the term is not used. */
  method HyperscheduleDriveDescriptions(data: seq<seq<string>>, term: string, matcher: string -> Option<CodeGroups>)
    returns (r: Result<map<string, string>, LingkError<string>>)
    ensures r == CsvDescriptions(data, IndexKey(matcher), true)
  {
    r := CsvLoop(data, IndexKey(matcher), true);
  }

  /** liblingk.py lingk_data_to_course_descriptions(data, lingk_term) */
  method LegacyDescriptions(data: Json, lingkTerm: string, matcher: string -> Option<CodeGroups>)
    returns (r: Result<map<string, string>, LingkError<string>>)
    ensures r == ApiDescriptions(data, IndexKey(matcher))
  {
    r := ApiLoop(data, IndexKey(matcher));
  }
}
