/** The checks and list building of the HMC Portal scraper (libportal.py)
    that do not depend on the browser: unique_preserve_order, the course
    code, status, schedule-day and half-semester checks of process_course,
    and the split of the raw courses into canonical and malformed ones in
    get_latest_course_list. Regular-expression matches are inputs (their
    groups, or None), and so are dates and times once dateutil has parsed
    them. */
module Portal {
  import opened Util
  import opened CourseKey

  // ---------------------------------------------------------------
  // unique_preserve_order
  // ---------------------------------------------------------------

  /** The list after deduplicating every prefix: an item is appended
      unless it is already there. */
  function Unique<T(==)>(lst: seq<T>): seq<T>
    decreases |lst|
  {
    if lst == [] then []
    else
      var u := Unique(lst[..|lst| - 1]);
      if lst[|lst| - 1] in u then u else u + [lst[|lst| - 1]]
  }

  predicate Distinct<T(==)>(s: seq<T>)
  {
    forall i, j :: 0 <= i < j < |s| ==> s[i] != s[j]
  }

  /** The position of the first occurrence of `x` in `lst`. */
  function First<T(==)>(lst: seq<T>, x: T): (n: nat)
    requires x in lst
    ensures n < |lst| && lst[n] == x && x !in lst[..n]
  {
    if lst[0] == x then 0
    else
      var n := 1 + First(lst[1..], x);
      assert lst[..n] == [lst[0]] + lst[1..][..n - 1];
      n
  }

  /** unique_preserve_order: a fresh list built by appending each item
      not yet in it. */
  method UniquePreserveOrder<T(==)>(lst: seq<T>) returns (r: seq<T>)
    ensures r == Unique(lst)
  {
    r := [];
    var i := 0;
    while i < |lst|
      invariant 0 <= i <= |lst|
      invariant r == Unique(lst[..i])
      decreases |lst| - i
    {
      assert lst[..i + 1][..i] == lst[..i];
      if lst[i] !in r {
        r := r + [lst[i]];
      }
      i := i + 1;
    }
    assert lst[..i] == lst;
  }

  /** The result has no duplicates and holds exactly the items of the
      input. */
  lemma {:induction false} UniqueSpec<T>(lst: seq<T>)
    ensures Distinct(Unique(lst))
    ensures forall x :: x in Unique(lst) <==> x in lst
    decreases |lst|
  {
    if lst != [] {
      var n := |lst| - 1;
      UniqueSpec(lst[..n]);
      assert lst == lst[..n] + [lst[n]];
    }
  }

  /** The first occurrence of an item in a prefix is its first occurrence
      in the whole list. */
  lemma FirstInPrefix<T>(lst: seq<T>, n: nat, x: T)
    requires n <= |lst| && x in lst[..n]
    ensures First(lst, x) == First(lst[..n], x)
  {
    var k := First(lst[..n], x);
    var f := First(lst, x);
    assert lst[..n][..k] == lst[..k];
    assert lst[k] == x;
    forall i | 0 <= i < k ensures lst[i] != x {
      assert lst[..k][i] == lst[i];
    }
    forall i | 0 <= i < f ensures lst[i] != x {
      assert lst[..f][i] == lst[i];
    }
  }

  /** Items come out in the order of their first occurrences. */
  lemma {:induction false} UniqueOrder<T>(lst: seq<T>)
    ensures forall x :: x in Unique(lst) ==> x in lst
    ensures forall i, j :: 0 <= i < j < |Unique(lst)| ==> First(lst, Unique(lst)[i]) < First(lst, Unique(lst)[j])
    decreases |lst|
  {
    UniqueSpec(lst);
    if lst != [] {
      var n := |lst| - 1;
      var pre := lst[..n];
      var u := Unique(pre);
      UniqueOrder(pre);
      UniqueSpec(pre);
      forall i | 0 <= i < |u| ensures First(lst, u[i]) == First(pre, u[i]) && First(lst, u[i]) < n {
        FirstInPrefix(lst, n, u[i]);
      }
      if lst[n] !in u {
        assert lst[n] !in pre;
        assert lst[..n] == pre;
        assert First(lst, lst[n]) == n;
      }
    }
  }

  /** A list without duplicates is left as it is. */
  lemma {:induction false} UniqueOfDistinct<T>(lst: seq<T>)
    requires Distinct(lst)
    ensures Unique(lst) == lst
    decreases |lst|
  {
    if lst != [] {
      var n := |lst| - 1;
      UniqueOfDistinct(lst[..n]);
      assert lst == lst[..n] + [lst[n]];
    }
  }

  /** Deduplicating twice is deduplicating once. */
  lemma UniqueIdempotent<T>(lst: seq<T>)
    ensures Unique(Unique(lst)) == Unique(lst)
  {
    UniqueSpec(lst);
    UniqueOfDistinct(Unique(lst));
  }

  // ---------------------------------------------------------------
  // Sorting (list.sort with a key)
  // ---------------------------------------------------------------

  /** `less` never holds both ways, as for any `<` on sort keys. */
  ghost predicate Asymmetric<T(!new)>(less: (T, T) -> bool)
  {
    forall a, b :: less(a, b) ==> !less(b, a)
  }

  /** Each item's key is no greater than the next one's. */
  ghost predicate SortedBy<T>(s: seq<T>, less: (T, T) -> bool)
  {
    forall i :: 0 <= i < |s| - 1 ==> !less(s[i + 1], s[i])
  }

  /** Insert `x` into a sorted list after every item it is not less than. */
  function InsertBy<T>(x: T, s: seq<T>, less: (T, T) -> bool): (r: seq<T>)
    ensures |r| == |s| + 1
    ensures r[0] == x || (s != [] && r[0] == s[0])
  {
    if s == [] then [x]
    else if less(x, s[0]) then [x] + s
    else [s[0]] + InsertBy(x, s[1..], less)
  }

  /** Python's stable sort by a key, as an insertion sort. */
  function SortBy<T>(xs: seq<T>, less: (T, T) -> bool): (r: seq<T>)
    ensures |r| == |xs|
    decreases |xs|
  {
    if xs == [] then [] else InsertBy(xs[|xs| - 1], SortBy(xs[..|xs| - 1], less), less)
  }

  lemma {:induction false} InsertBySorted<T(!new)>(x: T, s: seq<T>, less: (T, T) -> bool)
    requires Asymmetric(less) && SortedBy(s, less)
    ensures SortedBy(InsertBy(x, s, less), less)
    decreases |s|
  {
    if s != [] {
      if less(x, s[0]) {
        var r := [x] + s;
        forall i | 0 <= i < |r| - 1 ensures !less(r[i + 1], r[i]) {
          if i > 0 {
            assert r[i] == s[i - 1] && r[i + 1] == s[i];
          }
        }
      } else {
        var t := InsertBy(x, s[1..], less);
        assert SortedBy(s[1..], less) by {
          forall i | 0 <= i < |s[1..]| - 1 ensures !less(s[1..][i + 1], s[1..][i]) {
            assert s[1..][i] == s[i + 1] && s[1..][i + 1] == s[i + 2];
          }
        }
        InsertBySorted(x, s[1..], less);
        var r := [s[0]] + t;
        forall i | 0 <= i < |r| - 1 ensures !less(r[i + 1], r[i]) {
          if i > 0 {
            assert r[i] == t[i - 1] && r[i + 1] == t[i];
          } else if t[0] != x {
            assert t[0] == s[1];
          }
        }
      }
    }
  }

  lemma {:induction false} InsertByMultiset<T>(x: T, s: seq<T>, less: (T, T) -> bool)
    ensures multiset(InsertBy(x, s, less)) == multiset(s) + multiset{x}
    decreases |s|
  {
    if s != [] && !less(x, s[0]) {
      var t := InsertBy(x, s[1..], less);
      InsertByMultiset(x, s[1..], less);
      assert InsertBy(x, s, less) == [s[0]] + t;
      assert multiset([s[0]] + t) == multiset{s[0]} + multiset(t);
      assert s == [s[0]] + s[1..];
      assert multiset(s) == multiset{s[0]} + multiset(s[1..]);
    }
  }

  /** The sort puts every item no earlier than one that is less than it,
      and keeps every item exactly as often as it was there. */
  lemma {:induction false} SortBySpec<T(!new)>(xs: seq<T>, less: (T, T) -> bool)
    requires Asymmetric(less)
    ensures SortedBy(SortBy(xs, less), less)
    ensures multiset(SortBy(xs, less)) == multiset(xs)
    decreases |xs|
  {
    if xs != [] {
      var n := |xs| - 1;
      SortBySpec(xs[..n], less);
      InsertBySorted(xs[n], SortBy(xs[..n], less), less);
      InsertByMultiset(xs[n], SortBy(xs[..n], less), less);
      assert xs == xs[..n] + [xs[n]];
    }
  }

  /** "Not less" is transitive, as for `<=` on sort keys. */
  ghost predicate Transitive<T(!new)>(less: (T, T) -> bool)
  {
    forall a, b, c :: !less(b, a) && !less(c, b) ==> !less(c, a)
  }

  /** A list sorted pair by neighbouring pair is sorted for every pair. */
  lemma {:induction false} SortedByAll<T(!new)>(s: seq<T>, less: (T, T) -> bool, i: nat, j: nat)
    requires Asymmetric(less) && Transitive(less) && SortedBy(s, less) && i <= j < |s|
    ensures !less(s[j], s[i])
    decreases j - i
  {
    if i < j {
      SortedByAll(s, less, i, j - 1);
      assert !less(s[j], s[j - 1]);
    }
  }

  /** The items of s that the order cannot tell from p, in their order
      in s. */
  function TiedWith<T>(s: seq<T>, p: T, less: (T, T) -> bool): seq<T>
    decreases |s|
  {
    if s == [] then []
    else (if !less(s[0], p) && !less(p, s[0]) then [s[0]] else []) + TiedWith(s[1..], p, less)
  }

  lemma {:induction false} TiedWithConcat<T>(a: seq<T>, b: seq<T>, p: T, less: (T, T) -> bool)
    ensures TiedWith(a + b, p, less) == TiedWith(a, p, less) + TiedWith(b, p, less)
    decreases |a|
  {
    if a != [] {
      assert (a + b)[0] == a[0] && (a + b)[1..] == a[1..] + b;
      TiedWithConcat(a[1..], b, p, less);
    } else {
      assert a + b == b;
    }
  }

  /** Above an item x tied with p, a sorted list whose head is greater
      than x holds nothing tied with p. */
  lemma {:induction false} NoneTiedAbove<T(!new)>(x: T, s: seq<T>, p: T, less: (T, T) -> bool)
    requires Asymmetric(less) && Transitive(less) && SortedBy(s, less)
    requires !less(x, p) && !less(p, x)
    requires s != [] ==> less(x, s[0])
    ensures TiedWith(s, p, less) == []
    decreases |s|
  {
    if s != [] {
      assert less(p, s[0]);
      if |s| > 1 {
        assert !less(s[1], s[0]);
        assert less(x, s[1]);
      }
      SortedTail(s, less);
      NoneTiedAbove(x, s[1..], p, less);
    }
  }

  /** The tail of a sorted list is sorted. */
  lemma SortedTail<T>(s: seq<T>, less: (T, T) -> bool)
    requires s != [] && SortedBy(s, less)
    ensures SortedBy(s[1..], less)
  {
    forall i | 0 <= i < |s[1..]| - 1 ensures !less(s[1..][i + 1], s[1..][i]) {
      assert s[1..][i] == s[i + 1] && s[1..][i + 1] == s[i + 2];
    }
  }

  /** Putting x in front of a sorted list whose head is greater than x
      puts it after every item tied with p. */
  lemma InsertFrontTied<T(!new)>(x: T, s: seq<T>, p: T, less: (T, T) -> bool)
    requires Asymmetric(less) && Transitive(less) && SortedBy(s, less)
    requires s != [] && less(x, s[0])
    ensures TiedWith([x] + s, p, less) == TiedWith(s, p, less) + TiedWith([x], p, less)
  {
    TiedWithConcat([x], s, p, less);
    if !less(x, p) && !less(p, x) {
      NoneTiedAbove(x, s, p, less);
    } else {
      assert TiedWith([x], p, less) == [];
    }
  }

  /** Inserting x puts it after every item tied with p already there. */
  lemma {:induction false} InsertByTied<T(!new)>(x: T, s: seq<T>, p: T, less: (T, T) -> bool)
    requires Asymmetric(less) && Transitive(less) && SortedBy(s, less)
    ensures TiedWith(InsertBy(x, s, less), p, less) == TiedWith(s, p, less) + TiedWith([x], p, less)
    decreases |s|
  {
    if s == [] {
      assert TiedWith([x], p, less) == TiedWith([x] + [], p, less);
    } else if less(x, s[0]) {
      InsertFrontTied(x, s, p, less);
    } else {
      var t := InsertBy(x, s[1..], less);
      assert InsertBy(x, s, less) == [s[0]] + t;
      SortedTail(s, less);
      InsertByTied(x, s[1..], p, less);
      TiedWithConcat([s[0]], t, p, less);
      TiedWithConcat([s[0]], s[1..], p, less);
      assert s == [s[0]] + s[1..];
    }
  }

  /** The sort is stable: for every p, the items the order cannot tell
      from p come out in the order they went in. */
  lemma {:induction false} SortByStable<T(!new)>(xs: seq<T>, p: T, less: (T, T) -> bool)
    requires Asymmetric(less) && Transitive(less)
    ensures TiedWith(SortBy(xs, less), p, less) == TiedWith(xs, p, less)
    decreases |xs|
  {
    if xs != [] {
      var n := |xs| - 1;
      SortByStable(xs[..n], p, less);
      SortBySpec(xs[..n], less);
      InsertByTied(xs[n], SortBy(xs[..n], less), p, less);
      assert xs == xs[..n] + [xs[n]];
      TiedWithConcat(xs[..n], [xs[n]], p, less);
    }
  }

  /** Deduplicating a sorted list keeps it sorted. */
  lemma UniqueSorted<T(!new)>(s: seq<T>, less: (T, T) -> bool)
    requires Asymmetric(less) && Transitive(less) && SortedBy(s, less)
    ensures SortedBy(Unique(s), less)
  {
    var u := Unique(s);
    UniqueOrder(s);
    forall i | 0 <= i < |u| - 1 ensures !less(u[i + 1], u[i]) {
      SortedByAll(s, less, First(s, u[i]), First(s, u[i + 1]));
    }
  }

  // ---------------------------------------------------------------
  // The checks of process_course
  // ---------------------------------------------------------------

  /** Why process_course refuses a course (ScrapeError). */
  datatype PortalError =
    | BadCode(cause: ParseError)
    | EmptyCourseName
    | UnknownStatus(status: string)
    | MalformedSlot(slot: string)
    | UnknownDay(day: char)
    | NoDays
    | EmptyLocation
    | WeirdDateRange(begin: Date, end: Date)

  /** The five groups of COURSE_REGEX; the section is always present. */
  datatype PortalGroups = PortalGroups(department: string, number: string, suffix: string, school: string, section: string)

  /** The course-code checks of process_course, in the source's order: the
      same checks as parse_claremont_course_code on the first four groups,
      then a positive section. */
  function CheckCode(m: Option<PortalGroups>): Result<Identity, PortalError>
  {
    match m
    case None => Err(BadCode(MalformedCode))
    case Some(g) =>
      match CheckCodeHead(CodeGroups(g.department, g.number, g.suffix, g.school, None))
      case Err(e) => Err(BadCode(e))
      case Ok(n) =>
        if ParseInt(g.section).None? then Err(BadCode(MalformedSection))
        else if ParseInt(g.section).value <= 0 then Err(BadCode(NonPositiveSection))
        else Ok(Identity(g.department, n, g.suffix, g.school, ParseInt(g.section).value))
  }

  /** An accepted code has a positive number and section read from its
      digits and no "/" in its strings, so its index key reads back as its
      identity. */
  lemma CheckCodeSpec(m: Option<PortalGroups>)
    ensures CheckCode(m).Ok? <==>
              && m.Some? && m.value.department != "" && '/' !in m.value.department
              && ParseInt(m.value.number).Some? && ParseInt(m.value.number).value > 0
              && '/' !in m.value.suffix && m.value.school != "" && '/' !in m.value.school
              && ParseInt(m.value.section).Some? && ParseInt(m.value.section).value > 0
    ensures CheckCode(m).Ok? ==>
              var id := CheckCode(m).value;
              && id.courseNumber > 0 && id.section > 0 && NoSlash(id)
              && Some(id.courseNumber) == ParseInt(m.value.number) && Some(id.section) == ParseInt(m.value.section)
              && FromIndexKey(ToIndexKey(id)) == Some(IdentityRecord(id))
  {
    if CheckCode(m).Ok? {
      IndexKeyRoundTrip(CheckCode(m).value);
    }
  }

  /** `s.lower()` on ASCII letters. */
  function Lower(s: string): (r: string)
    ensures |r| == |s|
  {
    seq(|s|, i requires 0 <= i < |s| => if 'A' <= s[i] <= 'Z' then (s[i] as int + 32) as char else s[i])
  }

  /** The status check: lowercased, it must be open, closed or reopened. */
  function CheckStatus(raw: string): Result<string, PortalError>
  {
    var s := Lower(raw);
    if s == "open" || s == "closed" || s == "reopened" then Ok(s) else Err(UnknownStatus(s))
  }

  /** An accepted status is one of the three lower-case words; the check
      does not depend on letter case, and each word is accepted in any
      mix of cases. */
  lemma CheckStatusSpec(raw: string, other: string)
    ensures CheckStatus(raw).Ok? ==> CheckStatus(raw).value in {"open", "closed", "reopened"}
    ensures Lower(raw) == Lower(other) ==> CheckStatus(raw) == CheckStatus(other)
    ensures Lower(raw) in {"open", "closed", "reopened"} ==> CheckStatus(raw).Ok?
    ensures CheckStatus(raw).Ok? ==> Lower(CheckStatus(raw).value) == CheckStatus(raw).value
  {
    if CheckStatus(raw).Ok? {
      var s := CheckStatus(raw).value;
      assert Lower(s) == s;
    }
  }

  const DaysOfWeek := "MTWRFSU"

  /** `c in DAYS_OF_WEEK` */
  predicate IsDay(c: char)
  {
    c == 'M' || c == 'T' || c == 'W' || c == 'R' || c == 'F' || c == 'S' || c == 'U'
  }

  /** `DAYS_OF_WEEK.index(c)` */
  function DayIndex(c: char): (n: nat)
    requires IsDay(c)
    ensures n < |DaysOfWeek| && DaysOfWeek[n] == c
  {
    if c == 'M' then 0 else if c == 'T' then 1 else if c == 'W' then 2 else if c == 'R' then 3
    else if c == 'F' then 4 else if c == 'S' then 5 else 6
  }

  /** The days of the week are the characters of DAYS_OF_WEEK, and the
      k-th one has index k. */
  lemma DayIndexOf(k: nat)
    requires k < |DaysOfWeek|
    ensures IsDay(DaysOfWeek[k]) && DayIndex(DaysOfWeek[k]) == k
  {
  }

  /** The first character of `days` that is not a day of the week. */
  function FirstUnknownDay(days: string): (r: Option<char>)
    decreases |days|
  {
    if days == "" then None
    else if !IsDay(days[0]) then Some(days[0])
    else FirstUnknownDay(days[1..])
  }

  lemma {:induction false} FirstUnknownDaySpec(days: string)
    ensures FirstUnknownDay(days).None? <==> forall i :: 0 <= i < |days| ==> IsDay(days[i])
    ensures FirstUnknownDay(days).Some? ==>
              FirstUnknownDay(days).value in days && !IsDay(FirstUnknownDay(days).value)
    decreases |days|
  {
    if days != "" && IsDay(days[0]) {
      FirstUnknownDaySpec(days[1..]);
      assert forall i :: 1 <= i < |days| ==> days[i] == days[1..][i - 1];
    }
  }

  /** The days of the week from position `k` on that occur in `days`, in
      week order. */
  function DaysFrom(k: nat, days: string): string
    decreases |DaysOfWeek| - k
  {
    if k >= |DaysOfWeek| then ""
    else (if DaysOfWeek[k] in days then [DaysOfWeek[k]] else "") + DaysFrom(k + 1, days)
  }

  lemma {:induction false} DaysFromMembers(k: nat, days: string)
    requires k <= |DaysOfWeek|
    ensures forall c :: c in DaysFrom(k, days) <==> c in days && IsDay(c) && DayIndex(c) >= k
    decreases |DaysOfWeek| - k
  {
    if k < |DaysOfWeek| {
      DaysFromMembers(k + 1, days);
      DayIndexOf(k);
    }
  }

  /** Days of the week from position `k` on, each strictly after the one
      before it. */
  predicate WeekOrdered(s: string, k: nat)
  {
    && (forall i :: 0 <= i < |s| ==> IsDay(s[i]) && DayIndex(s[i]) >= k)
    && (forall i :: 0 <= i < |s| - 1 ==> DayIndex(s[i]) < DayIndex(s[i + 1]))
  }

  lemma {:induction false} DaysFromOrdered(k: nat, days: string)
    requires k <= |DaysOfWeek|
    ensures WeekOrdered(DaysFrom(k, days), k)
    decreases |DaysOfWeek| - k
  {
    if k < |DaysOfWeek| {
      var rest := DaysFrom(k + 1, days);
      DaysFromOrdered(k + 1, days);
      var d := DaysOfWeek[k];
      if d in days {
        assert DaysFrom(k, days) == [d] + rest;
        DayIndexOf(k);
        ConsOrdered(d, rest, k);
      } else {
        assert DaysFrom(k, days) == rest;
        WeekOrderedLater(rest, k);
      }
    }
  }

  lemma WeekOrderedLater(s: string, k: nat)
    requires WeekOrdered(s, k + 1)
    ensures WeekOrdered(s, k)
  {
    assert forall i :: 0 <= i < |s| ==> IsDay(s[i]) && DayIndex(s[i]) >= k + 1;
  }

  /** Putting the k-th day in front of days that all come later keeps the
      days in week order. */
  lemma ConsOrdered(d: char, rest: string, k: nat)
    requires IsDay(d) && DayIndex(d) == k
    requires WeekOrdered(rest, k + 1)
    ensures WeekOrdered([d] + rest, k)
  {
    var r := [d] + rest;
    forall i | 0 <= i < |r| ensures IsDay(r[i]) && DayIndex(r[i]) >= k {
      if i > 0 {
        assert r[i] == rest[i - 1];
      }
    }
    forall i | 0 <= i < |r| - 1 ensures DayIndex(r[i]) < DayIndex(r[i + 1]) {
      assert r[i + 1] == rest[i];
      if i > 0 {
        assert r[i] == rest[i - 1];
      }
    }
  }

  /** The day checks of one schedule slot: every character must be a day
      of the week; the days are then `sorted(set(days))` in week order,
      and none at all is refused. */
  function NormaliseDays(days: string): Result<string, PortalError>
  {
    match FirstUnknownDay(days)
    case Some(c) => Err(UnknownDay(c))
    case None =>
      var s := DaysFrom(0, days);
      if s == "" then Err(NoDays) else Ok(s)
  }

  /** Normalised days: the same days, each once, strictly in
      Monday-to-Sunday order; accepted exactly when there is at least one
      day and every character is a day. */
  lemma NormaliseDaysSpec(days: string)
    ensures NormaliseDays(days).Ok? <==> days != "" && forall i :: 0 <= i < |days| ==> IsDay(days[i])
    ensures NormaliseDays(days).Ok? ==>
              var s := NormaliseDays(days).value;
              && (forall c :: c in s <==> c in days)
              && WeekOrdered(s, 0)
    ensures NormaliseDays(days).Err? && NormaliseDays(days).error.UnknownDay? ==>
              NormaliseDays(days).error.day in days && !IsDay(NormaliseDays(days).error.day)
  {
    FirstUnknownDaySpec(days);
    if FirstUnknownDay(days).None? {
      DaysFromMembers(0, days);
      DaysFromOrdered(0, days);
      if days != "" {
        assert days[0] in DaysFrom(0, days);
      }
    }
  }

  /** A slot: its text, and the groups of SCHEDULE_REGEX when it matches
      (days, start, end, location). The times are taken as already
      formatted. */
  datatype SlotGroups = SlotGroups(days: string, start: string, end: string, location: string)
  datatype RawSlot = RawSlot(text: string, groups: Option<SlotGroups>)

  const PlaceholderSlot := "0:00 - 0:00 AM"

  /** What becomes of one slot: skipped (None), refused, or a canonical
      slot with normalised days and collapsed location. */
  function SlotResult(raw: RawSlot): Result<Option<Slot>, PortalError>
  {
    if |raw.text| >= |PlaceholderSlot| && raw.text[..|PlaceholderSlot|] == PlaceholderSlot then Ok(None)
    else match raw.groups
      case None => Err(MalformedSlot(raw.text))
      case Some(g) =>
        match NormaliseDays(g.days)
        case Err(e) => Err(e)
        case Ok(days) =>
          var location := CollapseSpace(g.location);
          if location == "" then Err(EmptyLocation)
          else Ok(Some(Slot(days, location, g.start, g.end)))
  }

  /** The schedule built from the slots, before sorting and deduplication. */
  function Schedule(slots: seq<RawSlot>): Result<seq<Slot>, PortalError>
    decreases |slots|
  {
    if slots == [] then Ok([])
    else
      match Schedule(slots[..|slots| - 1])
      case Err(e) => Err(e)
      case Ok(s) =>
        match SlotResult(slots[|slots| - 1])
        case Err(e) => Err(e)
        case Ok(None) => Ok(s)
        case Ok(Some(slot)) => Ok(s + [slot])
  }

  /** A canonical slot: days as NormaliseDays leaves them, and a non-empty
      location with whitespace collapsed. */
  predicate GoodSlot(s: Slot)
  {
    && s.days != "" && WeekOrdered(s.days, 0)
    && s.location != "" && Collapsed(s.location)
  }

  lemma SlotResultGood(raw: RawSlot)
    requires SlotResult(raw).Ok? && SlotResult(raw).value.Some?
    ensures GoodSlot(SlotResult(raw).value.value)
  {
    var g := raw.groups.value;
    NormaliseDaysSpec(g.days);
    CollapseSpaceSpec(g.location);
  }

  /** The schedule is refused exactly when some slot is, and every slot in
      it is canonical. */
  lemma {:induction false} ScheduleSpec(slots: seq<RawSlot>)
    ensures Schedule(slots).Ok? <==> forall i :: 0 <= i < |slots| ==> SlotResult(slots[i]).Ok?
    ensures Schedule(slots).Ok? ==> forall i :: 0 <= i < |Schedule(slots).value| ==> GoodSlot(Schedule(slots).value[i])
    decreases |slots|
  {
    if slots != [] {
      var n := |slots| - 1;
      var pre := slots[..n];
      ScheduleSpec(pre);
      assert forall i :: 0 <= i < n ==> pre[i] == slots[i];
      if Schedule(pre).Ok? && SlotResult(slots[n]).Ok? && SlotResult(slots[n]).value.Some? {
        SlotResultGood(slots[n]);
        var s := Schedule(pre).value;
        assert forall i :: 0 <= i < |s| ==> (s + [SlotResult(slots[n]).value.value])[i] == s[i];
      }
    }
  }

  /** The order `sorted(..., key=schedule_sort_key)` uses: Python's `<` on
      the key tuples. */
  predicate SlotLess(a: Slot, b: Slot)
  {
    TripleLess(ScheduleSortKey(a), ScheduleSortKey(b))
  }

  /** Two slots are unordered both ways exactly when their schedule sort
      keys are equal: the location plays no part in the order, and slots
      that differ only there are ties, which the stable sort keeps in input
      order (SortByStable). */
  lemma ScheduleKeyTies(a: Slot, b: Slot)
    ensures !SlotLess(a, b) && !SlotLess(b, a) <==> ScheduleSortKey(a) == ScheduleSortKey(b)
    ensures a.days == b.days && a.startTime == b.startTime && a.endTime == b.endTime ==>
              !SlotLess(a, b) && !SlotLess(b, a)
  {
    StrLessCases(a.days, b.days, a.days);
    StrLessCases(a.startTime, b.startTime, a.startTime);
    StrLessCases(a.endTime, b.endTime, a.endTime);
  }

  lemma SlotLessOrder()
    ensures Asymmetric(SlotLess) && Transitive(SlotLess)
  {
    forall a, b | SlotLess(a, b) ensures !SlotLess(b, a) {
      StrLessCases(a.days, b.days, a.days);
      StrLessCases(a.startTime, b.startTime, a.startTime);
      StrLessCases(a.endTime, b.endTime, a.endTime);
    }
    forall a, b, c | !SlotLess(b, a) && !SlotLess(c, b) ensures !SlotLess(c, a) {
      StrLessStep(a.days, b.days, c.days);
      StrLessStep(a.startTime, b.startTime, c.startTime);
      StrLessStep(a.endTime, b.endTime, c.endTime);
    }
  }

  /** `<` on three strings: irreflexive, asymmetric, transitive and
      total, in every arrangement. */
  lemma StrLessStep(a: string, b: string, c: string)
    ensures !StrLess(a, a) && !StrLess(b, b) && !StrLess(c, c)
    ensures StrLess(a, b) && StrLess(b, c) ==> StrLess(a, c)
    ensures StrLess(c, b) && StrLess(b, a) ==> StrLess(c, a)
    ensures StrLess(a, c) && StrLess(c, b) ==> StrLess(a, b)
    ensures StrLess(b, a) && StrLess(a, c) ==> StrLess(b, c)
    ensures StrLess(b, c) && StrLess(c, a) ==> StrLess(b, a)
    ensures StrLess(c, a) && StrLess(a, b) ==> StrLess(c, b)
    ensures a != b ==> StrLess(a, b) || StrLess(b, a)
    ensures b != c ==> StrLess(b, c) || StrLess(c, b)
    ensures a != c ==> StrLess(a, c) || StrLess(c, a)
  {
    StrLessCases(a, b, c);
    StrLessCases(c, b, a);
    StrLessCases(a, c, b);
    StrLessCases(b, a, c);
    StrLessCases(b, c, a);
    StrLessCases(c, a, b);
  }

  /** Dates, compared as Python compares datetime.date. */
  datatype Date = Date(year: int, month: int, day: int)

  predicate DateLess(a: Date, b: Date)
  {
    a.year < b.year || (a.year == b.year && (a.month < b.month || (a.month == b.month && a.day < b.day)))
  }

  /** The first-half window: strictly after January 1 and before January
      31, or strictly after July 15 and before September 15, of the
      course's own year. */
  predicate FirstHalf(begin: Date)
  {
    || (DateLess(Date(begin.year, 1, 1), begin) && DateLess(begin, Date(begin.year, 1, 31)))
    || (DateLess(Date(begin.year, 7, 15), begin) && DateLess(begin, Date(begin.year, 9, 15)))
  }

  /** The second-half window: strictly after April 1 and before May 31, or
      strictly after December 1 and before December 31. */
  predicate SecondHalf(end: Date)
  {
    || (DateLess(Date(end.year, 4, 1), end) && DateLess(end, Date(end.year, 5, 31)))
    || (DateLess(Date(end.year, 12, 1), end) && DateLess(end, Date(end.year, 12, 31)))
  }

  /** The windows by month and day: the boundary days themselves are
      outside, and the year plays no part. */
  lemma HalfSemesterWindows(begin: Date, end: Date)
    ensures FirstHalf(begin) <==>
              || (begin.month == 1 && 1 < begin.day < 31)
              || (begin.month == 7 && begin.day > 15) || begin.month == 8
              || (begin.month == 9 && begin.day < 15)
    ensures SecondHalf(end) <==>
              || (end.month == 4 && end.day > 1) || (end.month == 5 && end.day < 31)
              || (end.month == 12 && 1 < end.day < 31)
  {
  }

  /** The date check: a course in neither half-semester window is refused. */
  function CheckDates(begin: Date, end: Date): Result<(bool, bool), PortalError>
  {
    var first, second := FirstHalf(begin), SecondHalf(end);
    if !(first || second) then Err(WeirdDateRange(begin, end)) else Ok((first, second))
  }

  // ---------------------------------------------------------------
  // process_course
  // ---------------------------------------------------------------

  /** The parts of a raw course this model reads: the course-code match,
      the code and name texts, the status, the schedule slots, and the
      parsed begin and end dates. */
  datatype RawCourse = RawCourse(
    code: Option<PortalGroups>, codeText: string, name: string, status: string,
    slots: seq<RawSlot>, begin: Date, end: Date)

  /** The canonical course, restricted to the attributes modelled here. */
  datatype PortalCourse = PortalCourse(
    id: Identity, status: string, schedule: seq<Slot>, firstHalf: bool, secondHalf: bool)

  /** process_course: code, name, status, schedule and dates, checked in
      that order. */
  function Process(raw: RawCourse): Result<PortalCourse, PortalError>
  {
    match CheckCode(raw.code)
    case Err(e) => Err(e)
    case Ok(id) =>
      if raw.name == "" || IsSpaceString(raw.name) then Err(EmptyCourseName)
      else match CheckStatus(raw.status)
        case Err(e) => Err(e)
        case Ok(status) =>
          match Schedule(raw.slots)
          case Err(e) => Err(e)
          case Ok(schedule) =>
            match CheckDates(raw.begin, raw.end)
            case Err(e) => Err(e)
            case Ok(halves) =>
              Ok(PortalCourse(id, status, Unique(SortBy(schedule, SlotLess)), halves.0, halves.1))
  }

  /** A canonical course has a well-formed identity, a known status, a
      schedule of canonical slots without repeats sorted by
      schedule_sort_key, and lies in at least one half-semester window. */
  lemma ProcessSpec(raw: RawCourse)
    ensures Process(raw).Ok? ==>
              var c := Process(raw).value;
              && CheckCode(raw.code) == Ok(c.id) && c.id.courseNumber > 0 && c.id.section > 0
              && c.status in {"open", "closed", "reopened"}
              && Distinct(c.schedule) && (forall i :: 0 <= i < |c.schedule| ==> GoodSlot(c.schedule[i]))
              && SortedBy(c.schedule, SlotLess)
              && c.firstHalf == FirstHalf(raw.begin) && c.secondHalf == SecondHalf(raw.end)
              && (c.firstHalf || c.secondHalf)
  {
    if Process(raw).Ok? {
      CheckCodeSpec(raw.code);
      CheckStatusSpec(raw.status, raw.status);
      ScheduleSpec(raw.slots);
      CanonicalSchedule(Schedule(raw.slots).value);
    }
  }

  /** Sorting and then deduplicating canonical slots gives canonical slots,
      each once, in schedule_sort_key order. */
  lemma CanonicalSchedule(schedule: seq<Slot>)
    requires forall i :: 0 <= i < |schedule| ==> GoodSlot(schedule[i])
    ensures var c := Unique(SortBy(schedule, SlotLess));
            && Distinct(c) && (forall i :: 0 <= i < |c| ==> GoodSlot(c[i]))
            && SortedBy(c, SlotLess)
  {
    SlotLessOrder();
    var sorted := SortBy(schedule, SlotLess);
    SortBySpec(schedule, SlotLess);
    UniqueSpec(sorted);
    UniqueSorted(sorted, SlotLess);
    var c := Unique(sorted);
    forall i | 0 <= i < |c| ensures GoodSlot(c[i]) {
      assert c[i] in sorted;
      assert c[i] in multiset(schedule);
      var j :| 0 <= j < |schedule| && schedule[j] == c[i];
    }
  }

  /** process_course, with its loop over the schedule slots. */
  method ProcessCourse(raw: RawCourse) returns (r: Result<PortalCourse, PortalError>)
    ensures r == Process(raw)
  {
    var code := CheckCode(raw.code);
    if code.Err? {
      return Err(code.error);
    }
    if raw.name == "" || IsSpaceString(raw.name) {
      return Err(EmptyCourseName);
    }
    var status := CheckStatus(raw.status);
    if status.Err? {
      return Err(status.error);
    }
    var schedule := BuildSchedule(raw.slots);
    if schedule.Err? {
      return Err(schedule.error);
    }
    var dates := CheckDates(raw.begin, raw.end);
    if dates.Err? {
      return Err(dates.error);
    }
    var unique := UniquePreserveOrder(SortBy(schedule.value, SlotLess));
    r := Ok(PortalCourse(code.value, status.value, unique, dates.value.0, dates.value.1));
  }

  /** The loop over the slots of a course: each is parsed in turn, the
      first refused one refuses the course, and skipped slots add nothing. */
  method BuildSchedule(slots: seq<RawSlot>) returns (r: Result<seq<Slot>, PortalError>)
    ensures r == Schedule(slots)
  {
    var schedule: seq<Slot> := [];
    var i := 0;
    while i < |slots|
      invariant 0 <= i <= |slots|
      invariant Schedule(slots[..i]) == Ok(schedule)
      decreases |slots| - i
    {
      assert slots[..i + 1][..i] == slots[..i];
      var slot := SlotResult(slots[i]);
      if slot.Err? {
        ScheduleStaysFailed(slots, i + 1);
        return Err(slot.error);
      }
      if slot.value.Some? {
        schedule := schedule + [slot.value.value];
      }
      i := i + 1;
    }
    assert slots[..i] == slots;
    r := Ok(schedule);
  }

  /** Once a slot is refused the schedule stays refused. */
  lemma {:induction false} ScheduleStaysFailed(slots: seq<RawSlot>, i: nat)
    requires i <= |slots| && Schedule(slots[..i]).Err?
    ensures Schedule(slots) == Schedule(slots[..i])
    decreases |slots|
  {
    if i < |slots| {
      var n := |slots| - 1;
      assert slots[..n][..i] == slots[..i];
      ScheduleStaysFailed(slots[..n], i);
    } else {
      assert slots[..i] == slots;
    }
  }

  // ---------------------------------------------------------------
  // get_latest_course_list
  // ---------------------------------------------------------------

  /** format_raw_course: the code and the name with every whitespace run
      made a single space and the ends stripped. */
  function FormatRawCourse(raw: RawCourse): string
  {
    CollapseSpace(raw.codeText + " " + raw.name)
  }

  /** What process_course makes of each raw course. */
  function Outcomes(raws: seq<RawCourse>): (os: seq<Result<PortalCourse, PortalError>>)
    ensures |os| == |raws| && forall i :: 0 <= i < |raws| ==> os[i] == Process(raws[i])
  {
    seq(|raws|, i requires 0 <= i < |raws| => Process(raws[i]))
  }

  /** The canonical courses among the outcomes, in order. */
  function Oks(os: seq<Result<PortalCourse, PortalError>>): seq<PortalCourse>
    decreases |os|
  {
    if os == [] then []
    else
      var rest := Oks(os[..|os| - 1]);
      match os[|os| - 1]
      case Ok(c) => rest + [c]
      case Err(_) => rest
  }

  /** The names of the raw courses whose outcome is an error, in order. */
  function Refused(raws: seq<RawCourse>, os: seq<Result<PortalCourse, PortalError>>): seq<string>
    requires |raws| == |os|
    decreases |raws|
  {
    if raws == [] then []
    else
      var n := |raws| - 1;
      var rest := Refused(raws[..n], os[..n]);
      if os[n].Err? then rest + [FormatRawCourse(raws[n])] else rest
  }

  function Accepted(raws: seq<RawCourse>): seq<PortalCourse>
  {
    Oks(Outcomes(raws))
  }

  function Rejected(raws: seq<RawCourse>): seq<string>
  {
    Refused(raws, Outcomes(raws))
  }

  /** `<` on course_sort_key. */
  predicate CourseLess(a: PortalCourse, b: PortalCourse)
  {
    SortKeyLess(a.id, b.id)
  }

  lemma CourseLessOrder()
    ensures Asymmetric(CourseLess) && Transitive(CourseLess)
  {
    forall a, b | CourseLess(a, b) ensures !CourseLess(b, a) {
      SortKeyLessStrict(a.id, b.id, a.id);
    }
    forall a, b, c | !CourseLess(b, a) && !CourseLess(c, b) ensures !CourseLess(c, a) {
      SortKeyOrder(a.id, b.id, c.id);
    }
  }

  /** get_latest_course_list after the scrape: each raw course is
      processed, landing in the courses or, by name, in the malformed
      list; the courses are then sorted by course_sort_key. */
  method LatestCourseList(raws: seq<RawCourse>) returns (courses: seq<PortalCourse>, malformed: seq<string>)
    ensures courses == SortBy(Accepted(raws), CourseLess)
    ensures malformed == Rejected(raws)
  {
    courses, malformed := [], [];
    ghost var os := Outcomes(raws);
    var i := 0;
    while i < |raws|
      invariant 0 <= i <= |raws|
      invariant courses == Oks(os[..i]) && malformed == Refused(raws[..i], os[..i])
      decreases |raws| - i
    {
      assert raws[..i + 1][..i] == raws[..i] && os[..i + 1][..i] == os[..i];
      var r := ProcessCourse(raws[i]);
      assert os[i] == r;
      if r.Ok? {
        courses := courses + [r.value];
      } else {
        malformed := malformed + [FormatRawCourse(raws[i])];
      }
      i := i + 1;
    }
    assert raws[..i] == raws && os[..i] == os;
    courses := SortBy(courses, CourseLess);
  }

  /** Every raw course lands in exactly one of the two lists. */
  lemma {:induction false} PartitionCount(raws: seq<RawCourse>, os: seq<Result<PortalCourse, PortalError>>)
    requires |raws| == |os|
    ensures |Oks(os)| + |Refused(raws, os)| == |raws|
    decreases |raws|
  {
    if raws != [] {
      var n := |raws| - 1;
      PartitionCount(raws[..n], os[..n]);
    }
  }

  /** The courses are the accepted outcomes. */
  lemma {:induction false} OksMembers(os: seq<Result<PortalCourse, PortalError>>)
    ensures forall c :: c in Oks(os) <==> Ok(c) in os
    decreases |os|
  {
    if os != [] {
      var n := |os| - 1;
      OksMembers(os[..n]);
      assert os == os[..n] + [os[n]];
    }
  }

  /** The malformed list names exactly the refused raw courses. */
  lemma {:induction false} RefusedMembers(raws: seq<RawCourse>, os: seq<Result<PortalCourse, PortalError>>)
    requires |raws| == |os|
    ensures forall i :: 0 <= i < |raws| && os[i].Err? ==> FormatRawCourse(raws[i]) in Refused(raws, os)
    ensures forall m :: m in Refused(raws, os) ==>
              exists i :: 0 <= i < |raws| && os[i].Err? && FormatRawCourse(raws[i]) == m
    decreases |raws|
  {
    if raws != [] {
      var n := |raws| - 1;
      var pre, opre := raws[..n], os[..n];
      RefusedMembers(pre, opre);
      forall i | 0 <= i < |raws| && os[i].Err? ensures FormatRawCourse(raws[i]) in Refused(raws, os) {
        if i < n {
          assert pre[i] == raws[i] && opre[i] == os[i];
        }
      }
      forall m | m in Refused(raws, os)
        ensures exists i :: 0 <= i < |raws| && os[i].Err? && FormatRawCourse(raws[i]) == m
      {
        if m in Refused(pre, opre) {
          var i :| 0 <= i < n && opre[i].Err? && FormatRawCourse(pre[i]) == m;
          assert raws[i] == pre[i] && os[i] == opre[i];
        } else {
          assert os[n].Err? && FormatRawCourse(raws[n]) == m;
        }
      }
    }
  }

  /** Every raw course lands in exactly one of the two lists: the courses
      are the processed accepted ones and the malformed list names the
      refused ones. */
  lemma PartitionSpec(raws: seq<RawCourse>)
    ensures |Accepted(raws)| + |Rejected(raws)| == |raws|
    ensures forall c :: c in Accepted(raws) <==> exists i :: 0 <= i < |raws| && Process(raws[i]) == Ok(c)
    ensures forall i :: 0 <= i < |raws| && Process(raws[i]).Err? ==> FormatRawCourse(raws[i]) in Rejected(raws)
    ensures forall m :: m in Rejected(raws) ==>
              exists i :: 0 <= i < |raws| && Process(raws[i]).Err? && FormatRawCourse(raws[i]) == m
  {
    var os := Outcomes(raws);
    PartitionCount(raws, os);
    OksMembers(os);
    RefusedMembers(raws, os);
    forall c | c in Accepted(raws) ensures exists i :: 0 <= i < |raws| && Process(raws[i]) == Ok(c) {
      var i :| 0 <= i < |os| && os[i] == Ok(c);
    }
  }

  /** The returned courses are sorted by course_sort_key and are the
      accepted courses, each as often as it was accepted. */
  lemma CourseListSorted(raws: seq<RawCourse>)
    ensures var courses := SortBy(Accepted(raws), CourseLess);
            && (forall i, j :: 0 <= i < j < |courses| ==> SortKeyLe(courses[i].id, courses[j].id))
            && multiset(courses) == multiset(Accepted(raws))
  {
    CourseLessOrder();
    var courses := SortBy(Accepted(raws), CourseLess);
    SortBySpec(Accepted(raws), CourseLess);
    forall i, j | 0 <= i < j < |courses| ensures SortKeyLe(courses[i].id, courses[j].id) {
      SortedByAll(courses, CourseLess, i, j);
    }
  }
}
