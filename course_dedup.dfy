/** deduplicate_course_keys of hyperschedule/server.py (and its copy in
    server.py): courses whose index keys collide get the suffix letters
    A, B, C, ... in input order, in place. */
module CourseDedup {
  import opened Util
  import opened CourseKey

  /** The index key of every course, as the grouping loop computes it. */
  function Keys(s: seq<Course>): (ks: seq<string>)
    ensures |ks| == |s|
  {
    if s == [] then [] else Keys(s[..|s| - 1]) + [ToIndexKey(s[|s| - 1].id)]
  }

  lemma {:induction false} KeysAt(s: seq<Course>, p: nat)
    requires p < |s|
    ensures Keys(s)[p] == ToIndexKey(s[p].id)
  {
    if p < |s| - 1 {
      KeysAt(s[..|s| - 1], p);
    }
  }

  /** The positions before `hi` whose key is `k`, in increasing order:
      the list `course_index[k]` after the first `hi` courses. */
  function Positions(ks: seq<string>, k: string, hi: nat): (ps: seq<nat>)
    requires hi <= |ks|
    ensures forall t :: 0 <= t < |ps| ==> ps[t] < hi && ks[ps[t]] == k
  {
    if hi == 0 then []
    else Positions(ks, k, hi - 1) + (if ks[hi - 1] == k then [hi - 1] else [])
  }

  /** The keys of the first `hi` courses in first-occurrence order: the
      insertion order of the `course_index` dict. */
  function Order(ks: seq<string>, hi: nat): seq<string>
    requires hi <= |ks|
  {
    if hi == 0 then []
    else
      var o := Order(ks, hi - 1);
      if ks[hi - 1] in o then o else o + [ks[hi - 1]]
  }

  predicate Distinct<T(==)>(s: seq<T>)
  {
    forall i, j :: 0 <= i < j < |s| ==> s[i] != s[j]
  }

  /** How many courses share the key of position p. */
  function GroupSize(s: seq<Course>, p: nat): nat
    requires p < |s|
  {
    |Positions(Keys(s), Keys(s)[p], |s|)|
  }

  /** Position p's place in its group, counting from 0. */
  function Rank(s: seq<Course>, p: nat): nat
    requires p < |s|
  {
    |Positions(Keys(s), Keys(s)[p], p)|
  }

  /** string.ascii_uppercase[r] */
  function Letter(r: nat): (l: string)
    requires r < 26
    ensures |l| == 1 && 'A' <= l[0] <= 'Z'
  {
    [('A' as int + r) as char]
  }

  function WithSuffix(c: Course, suffix: string): Course
  {
    c.(id := c.id.(courseCodeSuffix := suffix))
  }

  /** The course at position p once its group is relabelled: the zip with
      the 26 letters leaves members past the 26th untouched. */
  function Relabel(s: seq<Course>, p: nat): Course
    requires p < |s|
  {
    if GroupSize(s, p) > 1 && Rank(s, p) < 26 then WithSuffix(s[p], Letter(Rank(s, p))) else s[p]
  }

  /** A colliding course that already has a suffix: the ScrapeError case. */
  predicate Clashes(s: seq<Course>, p: nat)
    requires p < |s|
  {
    GroupSize(s, p) > 1 && s[p].id.courseCodeSuffix != ""
  }

  /** The group with key k contains a clash. */
  predicate GroupClashes(s: seq<Course>, k: string)
  {
    exists p :: 0 <= p < |s| && Keys(s)[p] == k && Clashes(s, p)
  }

  /** The courses after the groups whose keys are in `done` were relabelled. */
  function DedupGroups(s: seq<Course>, done: seq<string>): (r: seq<Course>)
    ensures |r| == |s|
  {
    seq(|s|, p requires 0 <= p < |s| => if Keys(s)[p] in done then Relabel(s, p) else s[p])
  }

  /** The result of a deduplication that raised nothing. */
  function Deduplicated(s: seq<Course>): seq<Course>
  {
    DedupGroups(s, Order(Keys(s), |s|))
  }

  // ---------------------------------------------------------------
  // Facts about positions and the group order
  // ---------------------------------------------------------------

  lemma {:induction false} OrderSpec(ks: seq<string>, hi: nat)
    requires hi <= |ks|
    ensures forall k :: k in Order(ks, hi) <==> k in ks[..hi]
    ensures Distinct(Order(ks, hi))
  {
    if hi > 0 {
      OrderSpec(ks, hi - 1);
      assert ks[..hi] == ks[..hi - 1] + [ks[hi - 1]];
    }
  }

  lemma {:induction false} PositionsEmpty(ks: seq<string>, k: string, hi: nat)
    requires hi <= |ks| && k !in ks[..hi]
    ensures Positions(ks, k, hi) == []
  {
    if hi > 0 {
      assert ks[hi - 1] in ks[..hi];
      assert ks[..hi - 1] == ks[..hi][..hi - 1];
      PositionsEmpty(ks, k, hi - 1);
    }
  }

  lemma {:induction false} PositionsPrefix(ks: seq<string>, k: string, m: nat, n: nat)
    requires m <= n <= |ks|
    ensures Positions(ks, k, m) <= Positions(ks, k, n)
    decreases n
  {
    if m < n {
      PositionsPrefix(ks, k, m, n - 1);
    }
  }

  /** Every member of a group knows its place: the t-th position of the
      group has exactly t earlier members. */
  lemma {:induction false} PositionsRank(ks: seq<string>, k: string, n: nat, t: nat)
    requires n <= |ks| && t < |Positions(ks, k, n)|
    ensures |Positions(ks, k, Positions(ks, k, n)[t])| == t
  {
    var prev := Positions(ks, k, n - 1);
    if t < |prev| {
      PositionsRank(ks, k, n - 1, t);
    }
  }

  /** Conversely, position p sits at index Rank(p) in its group. */
  lemma RankIndex(ks: seq<string>, p: nat, n: nat)
    requires p < n <= |ks|
    ensures |Positions(ks, ks[p], p)| < |Positions(ks, ks[p], n)|
    ensures Positions(ks, ks[p], n)[|Positions(ks, ks[p], p)|] == p
  {
    PositionsPrefix(ks, ks[p], p + 1, n);
    assert Positions(ks, ks[p], p + 1) == Positions(ks, ks[p], p) + [p];
  }

  // ---------------------------------------------------------------
  // Properties of the deduplicated list
  // ---------------------------------------------------------------

  /** Relabelling only ever rewrites the suffix. */
  lemma RelabelOnlySuffix(s: seq<Course>, p: nat)
    requires p < |s|
    ensures Relabel(s, p).attrs == s[p].attrs
    ensures Relabel(s, p).id.(courseCodeSuffix := "") == s[p].id.(courseCodeSuffix := "")
    ensures GroupSize(s, p) <= 1 ==> Relabel(s, p) == s[p]
  {
  }

  /** Every relabelled course of a colliding group gets the letter of its
      place in the group. */
  lemma DedupSuffix(s: seq<Course>, p: nat)
    requires p < |s| && GroupSize(s, p) > 1 && Rank(s, p) < 26
    ensures Deduplicated(s)[p] == WithSuffix(s[p], Letter(Rank(s, p)))
  {
    var ks := Keys(s);
    OrderSpec(ks, |s|);
    assert ks[..|s|] == ks;
    assert ks[p] in Order(ks, |s|);
  }

  /** Within a colliding group of at most 26 courses, the member at
      place t of the group (in input order) gets letter t. */
  lemma DedupLetters(s: seq<Course>, k: string, t: nat)
    requires var ps := Positions(Keys(s), k, |s|); 1 < |ps| <= 26 && t < |ps|
    ensures var p := Positions(Keys(s), k, |s|)[t];
            Deduplicated(s)[p] == WithSuffix(s[p], Letter(t))
  {
    PositionsRank(Keys(s), k, |s|, t);
    DedupSuffix(s, Positions(Keys(s), k, |s|)[t]);
  }

  /** A course whose key is unique is left as it is. */
  lemma DedupSingleton(s: seq<Course>, p: nat)
    requires p < |s| && GroupSize(s, p) == 1
    ensures Deduplicated(s)[p] == s[p]
  {
  }

  /** Two distinct members of one colliding group among the first 26 end
      up with distinct identities. */
  lemma DedupSeparates(s: seq<Course>, p: nat, q: nat)
    requires p < |s| && q < |s| && p != q && Keys(s)[p] == Keys(s)[q]
    requires Rank(s, p) < 26 && Rank(s, q) < 26
    ensures Deduplicated(s)[p].id != Deduplicated(s)[q].id
  {
    var ks := Keys(s);
    RankIndex(ks, p, |s|);
    RankIndex(ks, q, |s|);
    assert Rank(s, p) != Rank(s, q);
    LetterInjective(Rank(s, p), Rank(s, q));
    DedupSuffix(s, p);
    DedupSuffix(s, q);
  }

  lemma LetterInjective(r1: nat, r2: nat)
    requires r1 < 26 && r2 < 26 && r1 != r2
    ensures Letter(r1) != Letter(r2)
  {
    assert Letter(r1)[0] != Letter(r2)[0];
  }

  // ---------------------------------------------------------------
  // The in-place algorithm
  // ---------------------------------------------------------------

  /** deduplicate_course_keys. On success the array holds the relabelled
      courses. On the ScrapeError the result names the first suffixed
      course of the first clashing group (in first-occurrence order); the
      groups before it have already been relabelled, the rest untouched. */
  method DeduplicateCourseKeys(a: array<Course>) returns (bad: Option<nat>)
    modifies a
    ensures bad.None? <==> forall p :: 0 <= p < a.Length ==> !Clashes(old(a[..]), p)
    ensures bad.None? ==> a[..] == Deduplicated(old(a[..]))
    ensures bad.Some? ==>
              var s, q := old(a[..]), bad.value;
              var order := Order(Keys(s), |s|);
              && q < |s| && Clashes(s, q)
              && (forall p :: 0 <= p < q && Keys(s)[p] == Keys(s)[q] ==> s[p].id.courseCodeSuffix == "")
              && exists g :: 0 <= g < |order| && order[g] == Keys(s)[q]
                   && (forall j :: 0 <= j < g ==> !GroupClashes(s, order[j]))
                   && a[..] == DedupGroups(s, order[..g])
  {
    ghost var s := a[..];
    ghost var ks := Keys(s);
    var groups, order := GroupByKey(a);
    OrderSpec(ks, |s|);
    assert ks[..|s|] == ks;
    // The relabelling loop, group by group in insertion order.
    var g := 0;
    while g < |order|
      invariant 0 <= g <= |order|
      invariant a[..] == DedupGroups(s, order[..g])
      invariant forall j :: 0 <= j < g ==> !GroupClashes(s, order[j])
    {
      bad := DedupGroup(a, groups[order[g]], s, order, g);
      if bad.Some? {
        return;
      }
      g := g + 1;
    }
    assert order[..|order|] == order;
    AllGroupsClean(s);
    bad := None;
  }

  /** One pass of the relabelling loop: group `order[g]`, whose
      positions are ps, is checked for suffixes and then relabelled. */
  method DedupGroup(a: array<Course>, ps: seq<nat>, ghost s: seq<Course>, ghost order: seq<string>, ghost g: nat)
    returns (bad: Option<nat>)
    requires |s| == a.Length && order == Order(Keys(s), |s|) && g < |order|
    requires ps == Positions(Keys(s), order[g], |s|)
    requires a[..] == DedupGroups(s, order[..g])
    modifies a
    ensures bad.None? ==> !GroupClashes(s, order[g]) && a[..] == DedupGroups(s, order[..g + 1])
    ensures bad.Some? ==>
              var q := bad.value;
              && q < |s| && Clashes(s, q) && Keys(s)[q] == order[g]
              && (forall p :: 0 <= p < q && Keys(s)[p] == Keys(s)[q] ==> s[p].id.courseCodeSuffix == "")
              && a[..] == old(a[..])
  {
    var key := order[g];
    ghost var done := order[..g];
    OrderSpec(Keys(s), |s|);
    assert key !in done;
    assert order[..g + 1] == done + [key];
    if |ps| > 1 {
      UntouchedGroup(s, done, key);
      var t := FirstSuffixed(a, ps);
      if t < |ps| {
        bad := Some(ps[t]);
        BadIsFirst(s, key, ps, t);
        return;
      }
      NoSuffixInGroup(s, key);
      AssignLetters(a, ps, s, done, key);
    } else {
      SmallGroup(s, key);
      assert DedupGroups(s, done) == DedupGroups(s, done + [key]);
    }
    bad := None;
  }

  /** The grouping loop: `course_index[key].append(course)` for every
      course, keys in insertion order. */
  method GroupByKey(a: array<Course>) returns (groups: map<string, seq<nat>>, order: seq<string>)
    ensures order == Order(Keys(a[..]), a.Length)
    ensures forall k :: k in groups <==> k in order
    ensures forall k :: k in groups ==> groups[k] == Positions(Keys(a[..]), k, a.Length)
  {
    ghost var ks := Keys(a[..]);
    groups, order := map[], [];
    var i := 0;
    while i < a.Length
      invariant 0 <= i <= a.Length
      invariant order == Order(ks, i)
      invariant forall k :: k in groups <==> k in order
      invariant forall k :: k in groups ==> groups[k] == Positions(ks, k, i)
    {
      var key := ToIndexKey(a[i].id);
      KeysAt(a[..], i);
      GroupStep(ks, i, groups, order);
      if key in groups {
        groups := groups[key := groups[key] + [i]];
      } else {
        groups := groups[key := [i]];
        order := order + [key];
      }
      i := i + 1;
    }
  }

  /** One turn of the grouping loop: position i joins the group of its
      key, which is opened (and its key appended) if it is new. */
  lemma GroupStep(ks: seq<string>, i: nat, groups: map<string, seq<nat>>, order: seq<string>)
    requires i < |ks| && order == Order(ks, i)
    requires forall k :: k in groups <==> k in order
    requires forall k :: k in groups ==> groups[k] == Positions(ks, k, i)
    ensures var key := ks[i];
            var groups' := if key in groups then groups[key := groups[key] + [i]] else groups[key := [i]];
            var order' := if key in groups then order else order + [key];
            && order' == Order(ks, i + 1)
            && (forall k :: k in groups' <==> k in order')
            && (forall k :: k in groups' ==> groups'[k] == Positions(ks, k, i + 1))
  {
    var key := ks[i];
    OrderSpec(ks, i);
    var groups' := if key in groups then groups[key := groups[key] + [i]] else groups[key := [i]];
    if key !in groups {
      PositionsEmpty(ks, key, i);
    }
    assert Positions(ks, key, i + 1) == Positions(ks, key, i) + [i];
    forall k | k in groups'
      ensures groups'[k] == Positions(ks, k, i + 1)
    {
      if k != key {
        assert Positions(ks, k, i + 1) == Positions(ks, k, i);
      }
    }
  }

  /** `for course, letter in zip(courses, ascii_uppercase)`: the first 26
      members of a colliding group get their letters. */
  method AssignLetters(a: array<Course>, ps: seq<nat>, ghost s: seq<Course>, ghost done: seq<string>,
                       ghost key: string)
    requires |s| == a.Length && key !in done
    requires ps == Positions(Keys(s), key, |s|) && |ps| > 1
    requires a[..] == DedupGroups(s, done)
    modifies a
    ensures a[..] == DedupGroups(s, done + [key])
  {
    var t := 0;
    assert Partial(s, done, key, 0) == DedupGroups(s, done);
    while t < |ps| && t < 26
      invariant 0 <= t <= |ps|
      invariant a[..] == Partial(s, done, key, t)
    {
      var p := ps[t];
      PartialStep(s, done, key, t);
      a[p] := WithSuffix(a[p], Letter(t));
      t := t + 1;
    }
    PartialDone(s, done, key, t);
  }

  /** The suffix check of one colliding group: the place of its first
      member that already has a suffix, or |ps| when none has. */
  method FirstSuffixed(a: array<Course>, ps: seq<nat>) returns (t: nat)
    requires forall u :: 0 <= u < |ps| ==> ps[u] < a.Length
    ensures t <= |ps|
    ensures forall u :: 0 <= u < t ==> a[ps[u]].id.courseCodeSuffix == ""
    ensures t < |ps| ==> a[ps[t]].id.courseCodeSuffix != ""
  {
    t := 0;
    while t < |ps|
      invariant 0 <= t <= |ps|
      invariant forall u :: 0 <= u < t ==> a[ps[u]].id.courseCodeSuffix == ""
    {
      if a[ps[t]].id.courseCodeSuffix != "" {
        return;
      }
      t := t + 1;
    }
  }

  /** The members of a group not yet processed are as they came in. */
  lemma UntouchedGroup(s: seq<Course>, done: seq<string>, key: string)
    requires key !in done
    ensures var ps := Positions(Keys(s), key, |s|);
            forall u :: 0 <= u < |ps| ==> DedupGroups(s, done)[ps[u]] == s[ps[u]]
  {
  }

  /** The array while group `key` is being relabelled: the groups of
      `done` and the first t members of group `key` are relabelled. */
  function Partial(s: seq<Course>, done: seq<string>, key: string, t: nat): (r: seq<Course>)
    ensures |r| == |s|
  {
    seq(|s|, p requires 0 <= p < |s| =>
      if Keys(s)[p] in done || (Keys(s)[p] == key && Rank(s, p) < t) then Relabel(s, p) else s[p])
  }

  lemma PartialStep(s: seq<Course>, done: seq<string>, key: string, t: nat)
    requires key !in done
    requires var ps := Positions(Keys(s), key, |s|); 1 < |ps| && t < |ps| && t < 26
    ensures var p := Positions(Keys(s), key, |s|)[t];
            var x := Partial(s, done, key, t);
            && p < |s|
            && x[p := WithSuffix(x[p], Letter(t))] == Partial(s, done, key, t + 1)
  {
    RelabelAt(s, key, t);
  }

  lemma PartialDone(s: seq<Course>, done: seq<string>, key: string, t: nat)
    requires var ps := Positions(Keys(s), key, |s|); 1 < |ps| && (t == |ps| || t == 26)
    ensures Partial(s, done, key, t) == DedupGroups(s, done + [key])
  {
    GroupFinished(s, key, t);
  }

  /** The t-th member of a colliding group is the only one of rank t and
      is relabelled with letter t. */
  lemma RelabelAt(s: seq<Course>, key: string, t: nat)
    requires var ps := Positions(Keys(s), key, |s|); 1 < |ps| && t < |ps| && t < 26
    ensures var p := Positions(Keys(s), key, |s|)[t];
            && Rank(s, p) == t && Keys(s)[p] == key
            && Relabel(s, p) == WithSuffix(s[p], Letter(t))
            && forall p' :: 0 <= p' < |s| && Keys(s)[p'] == key && Rank(s, p') == t ==> p' == p
  {
    var ks := Keys(s);
    PositionsRank(ks, key, |s|, t);
    forall p' | 0 <= p' < |s| && ks[p'] == key && Rank(s, p') == t
      ensures p' == Positions(ks, key, |s|)[t]
    {
      RankIndex(ks, p', |s|);
    }
  }

  /** Members past the relabelled prefix of a group keep their course. */
  lemma GroupFinished(s: seq<Course>, key: string, t: nat)
    requires var ps := Positions(Keys(s), key, |s|); 1 < |ps| && (t == |ps| || t == 26)
    ensures forall p :: 0 <= p < |s| && Keys(s)[p] == key && Rank(s, p) >= t ==> Relabel(s, p) == s[p]
  {
    var ks := Keys(s);
    forall p | 0 <= p < |s| && ks[p] == key && Rank(s, p) >= t
      ensures Relabel(s, p) == s[p]
    {
      RankIndex(ks, p, |s|);
    }
  }

  /** A group of at most one course is neither relabelled nor clashing. */
  lemma SmallGroup(s: seq<Course>, key: string)
    requires |Positions(Keys(s), key, |s|)| <= 1
    ensures forall p :: 0 <= p < |s| && Keys(s)[p] == key ==> Relabel(s, p) == s[p]
    ensures !GroupClashes(s, key)
  {
  }

  /** No group in the order clashes, so no course does. */
  lemma AllGroupsClean(s: seq<Course>)
    requires forall j :: 0 <= j < |Order(Keys(s), |s|)| ==> !GroupClashes(s, Order(Keys(s), |s|)[j])
    ensures forall p :: 0 <= p < |s| ==> !Clashes(s, p)
  {
    var ks := Keys(s);
    OrderSpec(ks, |s|);
    assert ks[..|s|] == ks;
    forall p | 0 <= p < |s|
      ensures !Clashes(s, p)
    {
      assert ks[p] in Order(ks, |s|);
      var j :| 0 <= j < |Order(ks, |s|)| && Order(ks, |s|)[j] == ks[p];
      assert !GroupClashes(s, Order(ks, |s|)[j]);
    }
  }

  /** Facts for the error exit: the group of `key` has a suffixed course,
      and ps[t] is its first one. */
  lemma BadIsFirst(s: seq<Course>, key: string, ps: seq<nat>, t: nat)
    requires ps == Positions(Keys(s), key, |s|) && 1 < |ps| && t < |ps|
    requires s[ps[t]].id.courseCodeSuffix != ""
    requires forall u :: 0 <= u < t ==> s[ps[u]].id.courseCodeSuffix == ""
    ensures Clashes(s, ps[t])
    ensures forall p :: 0 <= p < ps[t] && Keys(s)[p] == key ==> s[p].id.courseCodeSuffix == ""
  {
    var ks := Keys(s);
    PositionsRank(ks, key, |s|, t);
    forall p | 0 <= p < ps[t] && ks[p] == key
      ensures s[p].id.courseCodeSuffix == ""
    {
      RankIndex(ks, p, |s|);
      PositionsPrefix(ks, key, p + 1, ps[t]);
      assert |Positions(ks, key, p)| < |Positions(ks, key, ps[t])|;
    }
  }

  /** A group with no suffixed member has no clash. */
  lemma NoSuffixInGroup(s: seq<Course>, key: string)
    requires forall u :: 0 <= u < |Positions(Keys(s), key, |s|)| ==>
               s[Positions(Keys(s), key, |s|)[u]].id.courseCodeSuffix == ""
    ensures !GroupClashes(s, key)
  {
    var ks := Keys(s);
    forall p | 0 <= p < |s| && ks[p] == key
      ensures s[p].id.courseCodeSuffix == ""
    {
      RankIndex(ks, p, |s|);
    }
  }
}
