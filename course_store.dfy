/** The versioned course store of hyperschedule/server.py (and of its copy
    server.py): the `course_data` record that every scrape refreshes, the
    bounded window of update records it keeps, and the answers of the
    all-courses, courses-since and malformed-courses endpoints. */
module CourseStore {
  import opened Util
  import opened JsonValue
  import opened CourseKey
  import opened CourseIndex
  import opened CourseReplay

  /** MAX_UPDATES_SAVED */
  const MaxUpdatesSaved: nat := 100

  function Min(a: int, b: int): int
  {
    if a <= b then a else b
  }

  // ---------------------------------------------------------------
  // The window of update records, as a function of the history
  // ---------------------------------------------------------------

  /** Every index the store has held, with the timestamp of its scrape,
      oldest first. */
  type History = seq<(int, Index)>

  /** How many update records the store keeps after |h| refreshes. */
  function WindowSize(h: History): nat
  {
    if h == [] then 0 else Min(MaxUpdatesSaved, |h| - 1)
  }

  /** The update records the store keeps: those between consecutive
      indexes of the history, the newest MaxUpdatesSaved of them. */
  function Window(attrs: seq<string>, h: History): (ups: seq<(int, Update)>)
    ensures |ups| == WindowSize(h)
  {
    var n := WindowSize(h);
    var off := |h| - 1 - n;
    seq(n, i requires 0 <= i < n => (h[off + i + 1].0, UpdateOf(attrs, h[off + i].1, h[off + i + 1].1)))
  }

  /** `updates[:] = updates[len(updates) - MAX_UPDATES_SAVED:]` when too long. */
  function Truncate(ups: seq<(int, Update)>): (r: seq<(int, Update)>)
    ensures |r| == Min(|ups|, MaxUpdatesSaved)
    ensures forall i :: 0 <= i < |r| ==> r[i] == ups[|ups| - |r| + i]
  {
    if |ups| > MaxUpdatesSaved then ups[|ups| - MaxUpdatesSaved..] else ups
  }

  /** Appending the update to a new index and truncating keeps the window
      equal to the newest updates of the longer history. */
  lemma WindowStep(attrs: seq<string>, h: History, ts: int, ix: Index)
    requires h != []
    ensures Window(attrs, h + [(ts, ix)])
            == Truncate(Window(attrs, h) + [(ts, UpdateOf(attrs, h[|h| - 1].1, ix))])
  {
    var h' := h + [(ts, ix)];
    var w := Window(attrs, h) + [(ts, UpdateOf(attrs, h[|h| - 1].1, ix))];
    var lhs, rhs := Window(attrs, h'), Truncate(w);
    assert |lhs| == |rhs|;
    forall i | 0 <= i < |lhs|
      ensures lhs[i] == rhs[i]
    {
      var off' := |h'| - 1 - |lhs|;
      assert lhs[i] == (h'[off' + i + 1].0, UpdateOf(attrs, h'[off' + i].1, h'[off' + i + 1].1));
      var j := |w| - |rhs| + i;
      assert rhs[i] == w[j];
      if j < |w| - 1 {
        var off := |h| - 1 - WindowSize(h);
        assert w[j] == (h[off + j + 1].0, UpdateOf(attrs, h[off + j].1, h[off + j + 1].1));
        assert off + j == off' + i;
      }
    }
  }

  /** Timestamps of consecutive scrapes strictly increase. */
  predicate Increasing(h: History)
  {
    forall i, j :: 0 <= i < j < |h| ==> h[i].0 < h[j].0
  }

  // ---------------------------------------------------------------
  // Which `since` may be answered incrementally
  // ---------------------------------------------------------------

  /** The test the courses-since handler makes as written: any timestamp
      not older than the first scrape. */
  predicate AsWrittenAdmits(initialTimestamp: int, since: int)
  {
    since >= initialTimestamp
  }

  /** The test with the window taken into account: when updates have been
      dropped, `since` must be at least the timestamp of the oldest update
      kept, so that no dropped update is newer than `since`. */
  predicate WindowAdmits(initialTimestamp: int, ups: seq<(int, Update)>, since: int)
  {
    since >= initialTimestamp && (|ups| < MaxUpdatesSaved || since >= ups[0].0)
  }

  /** Chain of the indexes the window spans. */
  lemma WindowChain(attrs: seq<string>, h: History)
    requires h != []
    ensures var off := |h| - 1 - WindowSize(h);
            Chain(attrs, seq(|h| - off, i requires 0 <= i < |h| - off => h[off + i].1), Window(attrs, h))
  {
  }

  /** The timestamps of the window are those of the newest scrapes. */
  lemma WindowTimes(attrs: seq<string>, h: History, j: nat)
    requires h != [] && j < WindowSize(h)
    ensures Window(attrs, h)[j].0 == h[|h| - WindowSize(h) + j].0
  {
  }

  /** Under the corrected test, the client's scrape is one the window
      starts from or a later one, and exactly the updates after it are
      newer than its timestamp. */
  lemma WindowCovers(attrs: seq<string>, h: History, m: nat)
    requires m < |h| && Increasing(h)
    requires WindowAdmits(h[0].0, Window(attrs, h), h[m].0)
    ensures |h| - 1 - WindowSize(h) <= m
    ensures forall j :: 0 <= j < m - (|h| - 1 - WindowSize(h)) ==> Window(attrs, h)[j].0 <= h[m].0
    ensures forall j :: m - (|h| - 1 - WindowSize(h)) <= j < WindowSize(h) ==> Window(attrs, h)[j].0 > h[m].0
  {
    var n := WindowSize(h);
    var off := |h| - 1 - n;
    if off > 0 {
      WindowTimes(attrs, h, 0);
    }
    forall j | 0 <= j < n
      ensures Window(attrs, h)[j].0 == h[off + j + 1].0
    {
      WindowTimes(attrs, h, j);
    }
  }

  /** The corrected test is sound: a client holding the index of any scrape
      the test admits, applying the incremental answer, holds the current
      index as far as the tracked attributes go. */
  lemma WindowSound(attrs: seq<string>, h: History, m: nat)
    requires m < |h| && Increasing(h)
    requires Tracked(h[|h| - 1].1, attrs)
    requires Readable(h[m].1)
    requires WindowAdmits(h[0].0, Window(attrs, h), h[m].0)
    ensures DiffSince(attrs, Window(attrs, h), h[|h| - 1].1, h[m].0).Some?
    ensures TrackedView(attrs, ApplyCourseDiff(Served(h[m].1),
                                               DiffSince(attrs, Window(attrs, h), h[|h| - 1].1, h[m].0).value))
            == TrackedView(attrs, Served(h[|h| - 1].1))
  {
    var n := WindowSize(h);
    var off := |h| - 1 - n;
    var w := Window(attrs, h);
    var ixs := seq(|h| - off, i requires 0 <= i < |h| - off => h[off + i].1);
    WindowChain(attrs, h);
    WindowCovers(attrs, h, m);
    var k := m - off;
    assert ixs[k] == h[m].1;
    assert ixs[|w|] == h[|h| - 1].1;
    DiffSinceDelivers(attrs, ixs, w, h[m].0, k);
  }

  /** WindowSound for every scrape carrying the timestamp `since`. */
  lemma AdmittedSound(attrs: seq<string>, h: History, since: int)
    requires h != [] && WindowAdmits(h[0].0, Window(attrs, h), since)
    requires forall i :: 0 <= i < |h| ==> Tracked(h[i].1, attrs)
    ensures forall m :: 0 <= m < |h| && h[m].0 == since && Increasing(h) && Readable(h[m].1) ==>
              && DiffSince(attrs, Window(attrs, h), h[|h| - 1].1, since).Some?
              && TrackedView(attrs, ApplyCourseDiff(Served(h[m].1),
                                                    DiffSince(attrs, Window(attrs, h), h[|h| - 1].1, since).value))
                 == TrackedView(attrs, Served(h[|h| - 1].1))
  {
    forall m | 0 <= m < |h| && h[m].0 == since && Increasing(h) && Readable(h[m].1)
      ensures DiffSince(attrs, Window(attrs, h), h[|h| - 1].1, since).Some?
      ensures TrackedView(attrs, ApplyCourseDiff(Served(h[m].1),
                                                 DiffSince(attrs, Window(attrs, h), h[|h| - 1].1, since).value))
              == TrackedView(attrs, Served(h[|h| - 1].1))
    {
      WindowSound(attrs, h, m);
    }
  }

  /** A course carrying every tracked attribute. */
  function Sample(): Course
  {
    Course(Identity("CS", 5, "", "HM", 1), map a | a in CourseAttrs :: JNull)
  }

  const SampleKey := "CS/5//HM/1"

  /** 102 scrapes: the first holds one course, every later one none. */
  function LongHistory(): History
  {
    [(0, map[SampleKey := Sample()])] + seq(101, i => (i + 1, map[]))
  }

  lemma SampleTracked()
    ensures Tracked(map[SampleKey := Sample()], CourseAttrs)
  {
    forall i | 0 <= i < |CourseAttrs|
      ensures Get(Sample(), CourseAttrs[i]).Some?
    {
      assert CourseAttrs[i] in Sample().attrs;
    }
  }

  /** Past the first, every update of LongHistory's window changes nothing. */
  lemma LongHistoryWindow()
    ensures |Window(CourseAttrs, LongHistory())| == MaxUpdatesSaved
    ensures forall j :: 0 <= j < |Window(CourseAttrs, LongHistory())| ==> Window(CourseAttrs, LongHistory())[j].1 == NoChange
    ensures Window(CourseAttrs, LongHistory())[0].0 == 2
  {
    var h := LongHistory();
    var empty: Index := map[];
    forall j | 0 <= j < |Window(CourseAttrs, h)|
      ensures Window(CourseAttrs, h)[j].1 == NoChange
    {
      assert h[j + 1].1 == empty && h[j + 2].1 == empty;
      UpdateOfSame(CourseAttrs, empty);
    }
  }

  /** The test as written admits a client whose scrape is older than every
      update kept: a course removed by a dropped update stays in that
      client's copy, although the current index has none. The corrected
      test refuses the client, who then gets the full catalogue. */
  lemma AsWrittenMissesRemoval()
    ensures var h := LongHistory();
            && Increasing(h)
            && Tracked(h[0].1, CourseAttrs) && Tracked(h[|h| - 1].1, CourseAttrs)
            && AsWrittenAdmits(h[0].0, 0)
            && DiffSince(CourseAttrs, Window(CourseAttrs, h), h[|h| - 1].1, 0) == Some(CourseDiff(map[], map[], map[]))
            && SampleKey in ApplyCourseDiff(Served(h[0].1), CourseDiff(map[], map[], map[]))
            && SampleKey !in Served(h[|h| - 1].1)
            && !WindowAdmits(h[0].0, Window(CourseAttrs, h), 0)
  {
    var h := LongHistory();
    SampleTracked();
    LongHistoryShape();
    LongHistoryWindow();
    ReplayNoChange(CourseAttrs, Window(CourseAttrs, h), 0);
    NothingToMaterialise(h[|h| - 1].1);
  }

  lemma LongHistoryShape()
    ensures var h := LongHistory();
            && |h| == 102 && Increasing(h)
            && h[0] == (0, map[SampleKey := Sample()]) && h[|h| - 1].1 == map[]
  {
  }

  lemma NothingToMaterialise(ix: Index)
    ensures Materialised(ix, Start) == Some(CourseDiff(map[], map[], map[]))
  {
  }

  /** Folding in updates that change nothing leaves the accumulators empty. */
  lemma {:induction false} ReplayNoChange(all: seq<string>, ups: seq<(int, Update)>, since: int)
    requires forall j :: 0 <= j < |ups| ==> ups[j].1 == NoChange
    ensures ReplayFrom(all, Start, ups, since) == Some(Start)
    decreases |ups|
  {
    if ups != [] {
      assert Merged(map[], map[], {}) == map[];
      assert Step(all, Start, NoChange) == Some(Start);
      ReplayNoChange(all, ups[1..], since);
    }
  }

  // ---------------------------------------------------------------
  // The store
  // ---------------------------------------------------------------

  /** A full catalogue answer. */
  datatype Listing = Listing(courses: seq<Course>, timestamp: int, malformedCount: nat)

  /** The answers of the courses-since endpoint. */
  datatype SinceAnswer =
    | BadRequest                 // 400: the timestamp is not an integer
    | Unavailable                // 503: no courses yet
    | Fault                      // an exception inside compute_diff
    | Incremental(diff: CourseDiff, timestamp: int, malformedCount: nat)
    | Full(listing: Listing)

  /** The fields of the store agree with its history: nothing before the
      first refresh; afterwards the newest index and timestamp, the first
      timestamp, and the window of updates. */
  ghost predicate Consistent(attrs: seq<string>, hasCourses: bool, hasMalformed: bool, index: Option<Index>,
                             initialTimestamp: Option<int>, timestamp: Option<int>,
                             updates: seq<(int, Update)>, history: History)
  {
    && (history == [] <==> index.None?)
    && (history == [] ==> !hasCourses && initialTimestamp.None? && timestamp.None? && !hasMalformed)
    && (history != [] ==> && hasCourses && hasMalformed
                          && index == Some(history[|history| - 1].1)
                          && timestamp == Some(history[|history| - 1].0)
                          && initialTimestamp == Some(history[0].0))
    && updates == Window(attrs, history)
    && (forall i :: 0 <= i < |history| ==> Tracked(history[i].1, attrs))
  }

  /** update_course_data keeps the store consistent with the history
      extended by the new scrape. */
  lemma RefreshConsistent(attrs: seq<string>, hasCourses: bool, hasMalformed: bool, index: Option<Index>,
                          initialTimestamp: Option<int>, timestamp: Option<int>,
                          updates: seq<(int, Update)>, history: History, ts: int, ix: Index,
                          first: Option<int>, kept: seq<(int, Update)>)
    requires Consistent(attrs, hasCourses, hasMalformed, index, initialTimestamp, timestamp, updates, history)
    requires Tracked(ix, attrs)
    requires first == if index.None? then Some(ts) else initialTimestamp
    requires kept == if index.None? then [] else Truncate(updates + [(ts, UpdateOf(attrs, index.value, ix))])
    ensures Consistent(attrs, true, true, Some(ix), first, Some(ts), kept, history + [(ts, ix)])
  {
    if index.Some? {
      WindowStep(attrs, history, ts, ix);
    }
  }

  /** `course_data`, guarded by thread_lock in the source. */
  class Store {
    var current: Option<seq<Course>>
    var index: Option<Index>
    var initialTimestamp: Option<int>
    var timestamp: Option<int>
    var updates: seq<(int, Update)>
    /** Absent until the first refresh: INITIAL_COURSE_DATA has no such key. */
    var malformed: Option<seq<Json>>
    /** COURSE_ATTRS of the libcourse the server imports. */
    const attrs: seq<string>
    /** Every index stored so far, with its timestamp. */
    ghost var history: History

    ghost predicate Valid()
      reads this
    {
      Consistent(attrs, current.Some?, malformed.Some?, index, initialTimestamp, timestamp, updates, history)
    }

    /** `copy.deepcopy(INITIAL_COURSE_DATA)` */
    constructor (attrs: seq<string>)
      ensures Valid() && history == [] && this.attrs == attrs
    {
      current, index, initialTimestamp, timestamp := None, None, None, None;
      updates, malformed := [], None;
      this.attrs := attrs;
      history := [];
    }

    /** update_course_data: record the update from the previous index, keep
        only the newest MaxUpdatesSaved, and install the new scrape. */
    method Refresh(ts: int, courses: seq<Course>, ix: Index, malformedCourses: seq<Json>)
      requires Valid() && Tracked(ix, attrs)
      modifies this
      ensures Valid()
      ensures history == old(history) + [(ts, ix)]
      ensures current == Some(courses) && index == Some(ix) && timestamp == Some(ts)
      ensures malformed == Some(malformedCourses)
      ensures initialTimestamp == if old(index).None? then Some(ts) else old(initialTimestamp)
      ensures updates == if old(index).None? then []
                         else Truncate(old(updates) + [(ts, UpdateOf(attrs, old(index).value, ix))])
    {
      var kept, first := updates, initialTimestamp;
      if index.Some? {
        var u := ComputeUpdate(attrs, index.value, ix);
        kept := kept + [(ts, u)];
        if |kept| > MaxUpdatesSaved {
          kept := kept[|kept| - MaxUpdatesSaved..];
        }
        assert kept == Truncate(updates + [(ts, UpdateOf(attrs, index.value, ix))]);
      } else {
        first := Some(ts);
      }
      RefreshConsistent(attrs, current.Some?, malformed.Some?, index, initialTimestamp, timestamp,
                        updates, history, ts, ix, first, kept);
      current, index, initialTimestamp, timestamp := Some(courses), Some(ix), first, Some(ts);
      updates, malformed, history := kept, Some(malformedCourses), history + [(ts, ix)];
    }

    /** Whether a scrape has delivered a non-empty course list: the
        handlers test `course_data["current"]` for truth. */
    predicate Available()
      reads this
    {
      current.Some? && current.value != []
    }

    /** The corrected incremental test. */
    predicate Admits(since: int)
      reads this
    {
      initialTimestamp.Some? && WindowAdmits(initialTimestamp.value, updates, since)
    }

    /** /api/v2/all-courses: the current catalogue, or 503. */
    method AllCourses() returns (r: Option<Listing>)
      requires Valid()
      ensures r.Some? <==> Available()
      ensures r.Some? ==> && r.value.courses == current.value
                          && r.value.timestamp == history[|history| - 1].0
                          && r.value.malformedCount == |malformed.value|
    {
      if current.Some? && current.value != [] {
        r := Some(Listing(current.value, timestamp.value, |malformed.value|));
      } else {
        r := None;
      }
    }

    /** /api/v2/courses-since/<since>: `since` is the text the route's
        `[-0-9]+` matched. */
    method CoursesSince(sinceText: string) returns (r: SinceAnswer)
      requires Valid()
      ensures r.BadRequest? <==> ParseInt(sinceText).None?
      ensures r.Unavailable? <==> ParseInt(sinceText).Some? && !Available()
      ensures r.Full? <==> ParseInt(sinceText).Some? && Available() && !Admits(ParseInt(sinceText).value)
      ensures r.Full? ==> r.listing == Listing(current.value, timestamp.value, |malformed.value|)
      ensures r.Incremental? || r.Fault? ==>
                && ParseInt(sinceText).Some? && Available() && Admits(ParseInt(sinceText).value)
                && (r.Fault? <==> DiffSince(attrs, updates, index.value, ParseInt(sinceText).value).None?)
      ensures r.Incremental? ==>
                && r.diff == DiffSince(attrs, updates, index.value, ParseInt(sinceText).value).value
                && r.timestamp == history[|history| - 1].0 && r.malformedCount == |malformed.value|
      ensures r.Incremental? ==> forall m :: 0 <= m < |history| && history[m].0 == ParseInt(sinceText).value
                                             && Increasing(history) && Readable(history[m].1) ==>
                TrackedView(attrs, ApplyCourseDiff(Served(history[m].1), r.diff))
                == TrackedView(attrs, Served(history[|history| - 1].1))
      ensures Increasing(history) && r.Fault? ==> !exists m :: 0 <= m < |history| && history[m].0 == ParseInt(sinceText).value
                                                              && Readable(history[m].1)
    {
      var since := ParseInt(sinceText);
      if since.None? {
        return BadRequest;
      }
      if current.Some? && current.value != [] && Admits(since.value) {
        var d := ComputeDiff(attrs, updates, index.value, since.value);
        if d.None? {
          r := Fault;
        } else {
          r := Incremental(d.value, timestamp.value, |malformed.value|);
        }
        AdmittedSound(attrs, history, since.value);
      } else if current.Some? && current.value != [] {
        r := Full(Listing(current.value, timestamp.value, |malformed.value|));
      } else {
        r := Unavailable;
      }
    }

    /** /api/v2/malformed-courses of hyperschedule/server.py: the courses
        the scraper could not parse, or 503. */
    method MalformedCourses() returns (r: Option<seq<Json>>)
      requires Valid()
      ensures r.Some? <==> Available()
      ensures r.Some? ==> r.value == malformed.value
    {
      if current.Some? && current.value != [] {
        r := Some(malformed.value);
      } else {
        r := None;
      }
    }

    /** /api/v2/malformed-courses of server.py, which does not test for
        data: before the first refresh the lookup raises KeyError (None). */
    method MalformedCoursesLegacy() returns (r: Option<seq<Json>>)
      requires Valid()
      ensures r.Some? <==> history != []
      ensures r.Some? ==> r.value == malformed.value
    {
      r := malformed;
    }
  }
}
