/** index_courses and compute_update of hyperschedule/server.py (and of
    its copy server.py): the key -> course index of one scrape, and the
    difference between two indexes. Both copies share this code; they
    differ only in the tracked attribute list, which is a parameter here
    (CourseAttrs for hyperschedule/, LegacyCourseAttrs for the older copy). */
module CourseIndex {
  import opened Util
  import opened JsonValue
  import opened CourseKey
  import opened CourseDedup

  type Index = map<string, Course>

  /** Every course is filed under its own index key. */
  predicate Indexed(ix: Index)
  {
    forall k :: k in ix ==> ToIndexKey(ix[k].id) == k
  }

  /** Every course carries every tracked attribute, so `course[attr]`
      never raises KeyError. */
  predicate Tracked(ix: Index, attrs: seq<string>)
  {
    forall k :: k in ix ==> Complete(ix[k], attrs)
  }

  /** No two courses of s share an index key. */
  predicate DistinctKeys(s: seq<Course>)
  {
    Distinct(Keys(s))
  }

  /** ix files the course at each position under the key ks gives for
      it, and holds nothing else. */
  ghost predicate IndexOf(ix: Index, s: seq<Course>, ks: seq<string>)
    requires |ks| == |s|
  {
    && (forall k :: k in ix ==> exists p :: 0 <= p < |s| && ks[p] == k)
    && (forall p :: 0 <= p < |s| ==> ks[p] in ix && ix[ks[p]] == s[p])
  }

  /** No repeated key among the first n. */
  predicate NoRepeat(ks: seq<string>, n: nat)
    requires n <= |ks|
  {
    forall p, q :: 0 <= p < q < n ==> ks[p] != ks[q]
  }

  datatype IndexError =
    | SuffixedDuplicate(position: nat)   // raised by deduplicate_course_keys
    | SharedKey(position: nat)           // "more than one course matching"

  /** course_to_index_key of every course, in order. */
  method KeyList(s: seq<Course>) returns (ks: seq<string>)
    ensures ks == Keys(s)
  {
    ks := [];
    var i := 0;
    while i < |s|
      invariant 0 <= i <= |s| && ks == Keys(s[..i])
    {
      assert s[..i + 1][..i] == s[..i];
      ks := ks + [ToIndexKey(s[i].id)];
      i := i + 1;
    }
    assert s[..|s|] == s;
  }

  /** The loop of index_courses after deduplication, over the courses and
      their keys ks: every course is filed under its key; a key seen
      before is the ScrapeError, reported at the first course that
      repeats an earlier key. */
  method IndexByKeys(s: seq<Course>, ks: seq<string>) returns (r: Result<Index, nat>)
    requires |ks| == |s|
    ensures r.Ok? <==> NoRepeat(ks, |ks|)
    ensures r.Ok? ==> IndexOf(r.value, s, ks)
    ensures r.Err? ==> var q := r.error;
              && q < |s| && NoRepeat(ks, q) && exists p :: 0 <= p < q && ks[p] == ks[q]
  {
    var ix: Index := map[];
    var i := 0;
    while i < |s|
      invariant 0 <= i <= |s|
      invariant NoRepeat(ks, i)
      invariant forall k :: k in ix ==> exists p :: 0 <= p < i && ks[p] == k
      invariant forall p :: 0 <= p < i ==> ks[p] in ix && ix[ks[p]] == s[p]
    {
      var key := ks[i];
      if key in ix {
        return Err(i);
      }
      ix := ix[key := s[i]];
      i := i + 1;
    }
    return Ok(ix);
  }

  /** An index built from the real keys files every course under its own key. */
  lemma IndexOfIndexed(ix: Index, s: seq<Course>)
    requires IndexOf(ix, s, Keys(s))
    ensures Indexed(ix)
  {
    forall k | k in ix
      ensures ToIndexKey(ix[k].id) == k
    {
      var p :| 0 <= p < |s| && Keys(s)[p] == k;
      KeysAt(s, p);
    }
  }

  /** index_courses: deduplicate in place, then index. */
  method IndexCourses(a: array<Course>) returns (r: Result<Index, IndexError>)
    modifies a
    ensures r.Ok? <==> (forall p :: 0 <= p < a.Length ==> !Clashes(old(a[..]), p))
                       && DistinctKeys(Deduplicated(old(a[..])))
    ensures r.Ok? ==> && a[..] == Deduplicated(old(a[..]))
                      && Indexed(r.value) && IndexOf(r.value, a[..], Keys(a[..]))
    ensures (r.Err? && r.error.SuffixedDuplicate?) <==> exists p :: 0 <= p < a.Length && Clashes(old(a[..]), p)
    ensures r.Err? && r.error.SuffixedDuplicate? ==>
              r.error.position < a.Length && Clashes(old(a[..]), r.error.position)
    ensures r.Err? && r.error.SharedKey? ==>
              var q, ks := r.error.position, Keys(a[..]);
              && a[..] == Deduplicated(old(a[..])) && !DistinctKeys(a[..])
              && q < |ks| && NoRepeat(ks, q) && exists p :: 0 <= p < q && ks[p] == ks[q]
  {
    var bad := DeduplicateCourseKeys(a);
    if bad.Some? {
      return Err(SuffixedDuplicate(bad.value));
    }
    var ks := KeyList(a[..]);
    var ix := IndexByKeys(a[..], ks);
    match ix
    case Ok(m) =>
      IndexOfIndexed(m, a[..]);
      return Ok(m);
    case Err(q) =>
      return Err(SharedKey(q));
  }

  // ---------------------------------------------------------------
  // compute_update
  // ---------------------------------------------------------------

  /** The tracked attributes on which two courses differ, in the order of
      the attribute list. */
  function DiffAttrs(attrs: seq<string>, c1: Course, c2: Course): (d: seq<string>)
    ensures forall a :: a in d <==> a in attrs && Get(c1, a) != Get(c2, a)
    ensures |d| <= |attrs|
  {
    if attrs == [] then []
    else
      var last := attrs[|attrs| - 1];
      assert attrs == attrs[..|attrs| - 1] + [last];
      DiffAttrs(attrs[..|attrs| - 1], c1, c2) + (if Get(c1, last) != Get(c2, last) then [last] else [])
  }

  /** One update record: the keys added, the keys removed and, for each
      modified key, the non-empty list of attributes that changed. The
      source stores `added` and `removed` as lists built from sets, in
      set iteration order; they are sets here. */
  datatype Update = Update(added: set<string>, removed: set<string>, modified: map<string, seq<string>>)

  /** What compute_update computes, as a function of the two indexes. */
  function UpdateOf(attrs: seq<string>, oldIx: Index, newIx: Index): Update
  {
    Update(
      newIx.Keys - oldIx.Keys,
      oldIx.Keys - newIx.Keys,
      map k | k in newIx.Keys * oldIx.Keys && DiffAttrs(attrs, oldIx[k], newIx[k]) != []
        :: DiffAttrs(attrs, oldIx[k], newIx[k]))
  }

  /** The empty update. */
  const NoChange := Update({}, {}, map[])

  /** compute_update. */
  method ComputeUpdate(attrs: seq<string>, oldIx: Index, newIx: Index) returns (u: Update)
    requires Tracked(oldIx, attrs) && Tracked(newIx, attrs)
    ensures u == UpdateOf(attrs, oldIx, newIx)
  {
    var maybeModified := newIx.Keys * oldIx.Keys;
    var rest := maybeModified;
    var modified: map<string, seq<string>> := map[];
    while rest != {}
      invariant rest <= maybeModified
      invariant forall k :: k in modified <==>
                  k in maybeModified - rest && DiffAttrs(attrs, oldIx[k], newIx[k]) != []
      invariant forall k :: k in modified ==> modified[k] == DiffAttrs(attrs, oldIx[k], newIx[k])
      decreases rest
    {
      var key :| key in rest;
      var changed := ChangedAttrs(attrs, oldIx[key], newIx[key]);
      if changed != [] {
        modified := modified[key := changed];
      }
      rest := rest - {key};
    }
    ModifiedComplete(attrs, oldIx, newIx, modified);
    u := Update(newIx.Keys - oldIx.Keys, oldIx.Keys - newIx.Keys, modified);
  }

  lemma ModifiedComplete(attrs: seq<string>, oldIx: Index, newIx: Index, modified: map<string, seq<string>>)
    requires forall k :: k in modified <==>
               k in newIx.Keys * oldIx.Keys && DiffAttrs(attrs, oldIx[k], newIx[k]) != []
    requires forall k :: k in modified ==> modified[k] == DiffAttrs(attrs, oldIx[k], newIx[k])
    ensures modified == UpdateOf(attrs, oldIx, newIx).modified
  {
    var spec := UpdateOf(attrs, oldIx, newIx).modified;
    assert modified.Keys == spec.Keys;
  }

  /** The inner loop of compute_update over the attribute list. */
  method ChangedAttrs(attrs: seq<string>, c1: Course, c2: Course) returns (d: seq<string>)
    ensures d == DiffAttrs(attrs, c1, c2)
  {
    d := [];
    var i := 0;
    while i < |attrs|
      invariant 0 <= i <= |attrs|
      invariant d == DiffAttrs(attrs[..i], c1, c2)
    {
      assert attrs[..i + 1][..i] == attrs[..i];
      if Get(c1, attrs[i]) != Get(c2, attrs[i]) {
        d := d + [attrs[i]];
      }
      i := i + 1;
    }
    assert attrs[..|attrs|] == attrs;
  }

  /** The attributes of a modified entry come in attribute-list order:
      DiffAttrs is a subsequence of the list, so without repeats when the
      list has none. */
  lemma {:induction false} DiffAttrsOrdered(attrs: seq<string>, c1: Course, c2: Course)
    requires Distinct(attrs)
    ensures Distinct(DiffAttrs(attrs, c1, c2))
    ensures forall i, j :: 0 <= i < j < |DiffAttrs(attrs, c1, c2)| ==>
              exists x, y :: 0 <= x < y < |attrs| && attrs[x] == DiffAttrs(attrs, c1, c2)[i]
                                                  && attrs[y] == DiffAttrs(attrs, c1, c2)[j]
  {
    if attrs != [] {
      var init := attrs[..|attrs| - 1];
      var last := attrs[|attrs| - 1];
      assert Distinct(init);
      DiffAttrsOrdered(init, c1, c2);
      var d0 := DiffAttrs(init, c1, c2);
      var d := DiffAttrs(attrs, c1, c2);
      assert last !in init;
      assert last !in d0;
      forall i, j | 0 <= i < j < |d|
        ensures exists x, y :: 0 <= x < y < |attrs| && attrs[x] == d[i] && attrs[y] == d[j]
      {
        if j < |d0| {
          var x, y :| 0 <= x < y < |init| && init[x] == d0[i] && init[y] == d0[j];
          assert attrs[x] == d[i] && attrs[y] == d[j];
        } else {
          assert d[i] in init;
          var x :| 0 <= x < |init| && init[x] == d[i];
          assert attrs[x] == d[i] && attrs[|attrs| - 1] == d[j];
        }
      }
    }
  }

  /** compute_update's result: added and removed are the key-set
      differences, a modified key is in both indexes and carries exactly
      the non-empty list of tracked attributes that differ. */
  lemma UpdateOfSpec(attrs: seq<string>, oldIx: Index, newIx: Index, k: string, a: string)
    ensures var u := UpdateOf(attrs, oldIx, newIx);
            && (k in u.added <==> k in newIx && k !in oldIx)
            && (k in u.removed <==> k in oldIx && k !in newIx)
            && u.added !! u.removed && u.added !! u.modified.Keys && u.removed !! u.modified.Keys
            && (k in u.modified <==> k in oldIx && k in newIx
                                      && exists b :: b in attrs && Get(oldIx[k], b) != Get(newIx[k], b))
            && (k in u.modified ==>
                  && u.modified[k] != []
                  && (a in u.modified[k] <==> a in attrs && Get(oldIx[k], a) != Get(newIx[k], a)))
  {
    var u := UpdateOf(attrs, oldIx, newIx);
    if k in oldIx && k in newIx && exists b :: b in attrs && Get(oldIx[k], b) != Get(newIx[k], b) {
      var b :| b in attrs && Get(oldIx[k], b) != Get(newIx[k], b);
      assert b in DiffAttrs(attrs, oldIx[k], newIx[k]);
    }
    if k in u.modified {
      var b := u.modified[k][0];
      assert b in attrs && Get(oldIx[k], b) != Get(newIx[k], b);
    }
  }

  lemma {:induction false} DiffAttrsSame(attrs: seq<string>, c: Course)
    ensures DiffAttrs(attrs, c, c) == []
  {
    if attrs != [] {
      DiffAttrsSame(attrs[..|attrs| - 1], c);
    }
  }

  /** An index compared with itself yields the empty update. */
  lemma UpdateOfSame(attrs: seq<string>, ix: Index)
    ensures UpdateOf(attrs, ix, ix) == NoChange
  {
    var u := UpdateOf(attrs, ix, ix);
    forall k | k in ix
      ensures DiffAttrs(attrs, ix[k], ix[k]) == []
    {
      DiffAttrsSame(attrs, ix[k]);
    }
    assert u.modified == map[];
  }

  /** Conversely, two indexes with the same keys whose courses agree on
      every tracked attribute yield the empty update. */
  lemma UpdateOfEmpty(attrs: seq<string>, oldIx: Index, newIx: Index)
    ensures UpdateOf(attrs, oldIx, newIx) == NoChange <==>
              oldIx.Keys == newIx.Keys
              && forall k, a :: k in oldIx && a in attrs ==> Get(oldIx[k], a) == Get(newIx[k], a)
  {
    var u := UpdateOf(attrs, oldIx, newIx);
    if u == NoChange {
      assert oldIx.Keys == newIx.Keys by {
        assert u.added == {} && u.removed == {};
      }
      forall k, a | k in oldIx && a in attrs
        ensures Get(oldIx[k], a) == Get(newIx[k], a)
      {
        UpdateOfSpec(attrs, oldIx, newIx, k, a);
      }
    } else if oldIx.Keys == newIx.Keys {
      var k :| k in u.modified;
      UpdateOfSpec(attrs, oldIx, newIx, k, "");
    }
  }
}
