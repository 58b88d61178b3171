/** compute_diff of hyperschedule/server.py (and of its copy server.py):
    folding the retained update records newer than a client's timestamp
    into one added / removed / modified summary, then reading the
    courses it names out of the current index. */
module CourseReplay {
  import opened Util
  import opened JsonValue
  import opened CourseKey
  import opened CourseIndex

  /** The three accumulators of the fold: keys added, keys removed, and for
      each modified key the set of attributes that changed. */
  datatype Acc = Acc(added: set<string>, removed: set<string>, modified: map<string, set<string>>)

  const Start := Acc({}, {}, map[])

  function AttrSet(attrs: seq<string>): set<string>
  {
    set a | a in attrs
  }

  // ---------------------------------------------------------------
  // One update record, in the three passes the source makes over it.
  // None is the AssertionError a pass raises.
  // ---------------------------------------------------------------

  /** acc.modified with the attribute lists of m's keys in `done` unioned in. */
  function Merged(modified: map<string, set<string>>, m: map<string, seq<string>>, done: set<string>)
    : (r: map<string, set<string>>)
    requires done <= m.Keys
    ensures r.Keys == modified.Keys + done
  {
    map k | k in modified.Keys + done ::
      (if k in modified then modified[k] else {}) + (if k in done then AttrSet(m[k]) else {})
  }

  /** The pass over the update's modified map: no such key may be
      currently removed; its attributes join the key's entry. */
  function MergeModified(acc: Acc, m: map<string, seq<string>>): Option<Acc>
  {
    if m.Keys * acc.removed != {} then None
    else Some(acc.(modified := Merged(acc.modified, m, m.Keys)))
  }

  /** The pass over the update's added keys: no such key may be modified or
      added already; a removed key that comes back is taken out of removed
      and marked as changed in every tracked attribute. */
  function MergeAdded(all: seq<string>, acc: Acc, added: set<string>): Option<Acc>
  {
    if added * (acc.modified.Keys + acc.added) != {} then None
    else Some(Acc(acc.added + (added - acc.removed),
                  acc.removed - added,
                  acc.modified + map k | k in added * acc.removed :: AttrSet(all)))
  }

  /** The pass over the update's removed keys: no such key may be removed
      already; it loses its modified entry and cancels its own addition,
      or else joins removed. */
  function MergeRemoved(acc: Acc, removed: set<string>): Option<Acc>
  {
    if removed * acc.removed != {} then None
    else Some(Acc(acc.added - removed,
                  acc.removed + (removed - acc.added),
                  map k | k in acc.modified && k !in removed :: acc.modified[k]))
  }

  /** One update record folded into the accumulators. */
  function Step(all: seq<string>, acc: Acc, u: Update): Option<Acc>
  {
    match MergeModified(acc, u.modified)
    case None => None
    case Some(a1) =>
      match MergeAdded(all, a1, u.added)
      case None => None
      case Some(a2) => MergeRemoved(a2, u.removed)
  }

  /** The fold over the retained updates, oldest first, skipping those not
      newer than `since`. */
  function ReplayFrom(all: seq<string>, acc: Acc, ups: seq<(int, Update)>, since: int): Option<Acc>
    decreases |ups|
  {
    if ups == [] then Some(acc)
    else
      var next := if ups[0].0 > since then Step(all, acc, ups[0].1) else Some(acc);
      match next
      case None => None
      case Some(a) => ReplayFrom(all, a, ups[1..], since)
  }

  // ---------------------------------------------------------------
  // The loops of compute_diff
  // ---------------------------------------------------------------

  /** `for key, attrs in update["modified"].items()` */
  method MergeModifiedPass(acc: Acc, m: map<string, seq<string>>) returns (r: Option<Acc>)
    ensures r == MergeModified(acc, m)
  {
    var modified := acc.modified;
    var rest := m.Keys;
    while rest != {}
      invariant rest <= m.Keys
      invariant (m.Keys - rest) !! acc.removed
      invariant modified.Keys == acc.modified.Keys + (m.Keys - rest)
      invariant forall k :: k in modified ==>
                  modified[k] == (if k in acc.modified then acc.modified[k] else {})
                                 + (if k in m.Keys - rest then AttrSet(m[k]) else {})
      decreases rest
    {
      var key :| key in rest;
      if key in acc.removed {
        assert key in m.Keys * acc.removed;
        return None;
      }
      var prior := if key in modified then modified[key] else {};
      modified := modified[key := prior + AttrSet(m[key])];
      rest := rest - {key};
    }
    assert m.Keys - rest == m.Keys;
    MergedExt(acc.modified, m, modified);
    r := Some(acc.(modified := modified));
  }

  lemma MergedExt(prior: map<string, set<string>>, m: map<string, seq<string>>, modified: map<string, set<string>>)
    requires modified.Keys == prior.Keys + m.Keys
    requires forall k :: k in modified ==>
               modified[k] == (if k in prior then prior[k] else {}) + (if k in m.Keys then AttrSet(m[k]) else {})
    ensures modified == Merged(prior, m, m.Keys)
  {
  }

  /** `for key in update["added"]` */
  method MergeAddedPass(all: seq<string>, acc: Acc, added: set<string>) returns (r: Option<Acc>)
    ensures r == MergeAdded(all, acc, added)
  {
    var add, rem, mod := acc.added, acc.removed, acc.modified;
    var rest := added;
    while rest != {}
      invariant rest <= added
      invariant (added - rest) !! (acc.modified.Keys + acc.added)
      invariant add == acc.added + ((added - rest) - acc.removed)
      invariant rem == acc.removed - (added - rest)
      invariant mod == acc.modified + map k | k in (added - rest) * acc.removed :: AttrSet(all)
      decreases rest
    {
      var key :| key in rest;
      if key in mod || key in add {
        assert key in added * (acc.modified.Keys + acc.added);
        return None;
      }
      if key in rem {
        rem := rem - {key};
        mod := mod[key := AttrSet(all)];
      } else {
        add := add + {key};
      }
      rest := rest - {key};
    }
    assert added - rest == added;
    r := Some(Acc(add, rem, mod));
  }

  /** `for key in update["removed"]` */
  method MergeRemovedPass(acc: Acc, removed: set<string>) returns (r: Option<Acc>)
    ensures r == MergeRemoved(acc, removed)
  {
    var add, rem, mod := acc.added, acc.removed, acc.modified;
    var rest := removed;
    while rest != {}
      invariant rest <= removed
      invariant (removed - rest) !! acc.removed
      invariant add == acc.added - (removed - rest)
      invariant rem == acc.removed + ((removed - rest) - acc.added)
      invariant mod == map k | k in acc.modified && k !in removed - rest :: acc.modified[k]
      decreases rest
    {
      var key :| key in rest;
      if key in rem {
        assert key in removed * acc.removed;
        return None;
      }
      if key in mod {
        mod := mod - {key};
      }
      if key in add {
        add := add - {key};
      } else {
        rem := rem + {key};
      }
      rest := rest - {key};
    }
    assert removed - rest == removed;
    r := Some(Acc(add, rem, mod));
  }

  /** The body of the fold for one update newer than `since`. */
  method ApplyUpdate(all: seq<string>, acc: Acc, u: Update) returns (r: Option<Acc>)
    ensures r == Step(all, acc, u)
  {
    r := MergeModifiedPass(acc, u.modified);
    if r.Some? {
      r := MergeAddedPass(all, r.value, u.added);
      if r.Some? {
        r := MergeRemovedPass(r.value, u.removed);
      }
    }
  }

  /** The fold of compute_diff over `course_data["updates"]`. */
  method Replay(all: seq<string>, ups: seq<(int, Update)>, since: int) returns (r: Option<Acc>)
    ensures r == ReplayFrom(all, Start, ups, since)
  {
    var acc := Start;
    var i := 0;
    while i < |ups|
      invariant 0 <= i <= |ups|
      invariant ReplayFrom(all, Start, ups, since) == ReplayFrom(all, acc, ups[i..], since)
    {
      assert ups[i..][0] == ups[i] && ups[i..][1..] == ups[i + 1..];
      if ups[i].0 > since {
        var next := ApplyUpdate(all, acc, ups[i].1);
        if next.None? {
          return None;
        }
        acc := next.value;
      }
      i := i + 1;
    }
    return Some(acc);
  }

  // ---------------------------------------------------------------
  // Reading the summary out of the current index
  // ---------------------------------------------------------------

  /** The payload of an incremental answer, keyed by index key: full
      courses for added keys, identity-only placeholders for removed keys,
      and for modified keys the identity plus the changed attributes. The
      source builds lists in set iteration order. */
  datatype CourseDiff = CourseDiff(added: map<string, Record>, removed: map<string, Record>,
                                   modified: map<string, Record>)

  /** The identity attributes and the given ones, read from the course;
      None is the KeyError of a missing attribute. */
  function ChangedRecord(c: Course, attrs: set<string>): Option<Record>
  {
    if forall a :: a in attrs ==> Get(c, a).Some? then
      Some(map a | a in AttrSet(IndexAttrs) + attrs :: Get(c, a).value)
    else None
  }

  /** A modified course is served as exactly its identity attributes and
      its changed attributes, with the current course's values; it can be
      built iff the course has every changed attribute. */
  lemma ChangedRecordSpec(c: Course, attrs: set<string>)
    ensures ChangedRecord(c, attrs).Some? <==> forall a :: a in attrs ==> Get(c, a).Some?
    ensures ChangedRecord(c, attrs).Some? ==>
              && ChangedRecord(c, attrs).value.Keys == AttrSet(IndexAttrs) + attrs
              && forall a :: a in ChangedRecord(c, attrs).value ==> Get(c, a) == Some(ChangedRecord(c, attrs).value[a])
  {
  }

  /** The second half of compute_diff: None is the KeyError of a key
      missing from the index or of a missing attribute, or the ValueError
      of an unreadable removed key. */
  function Materialised(ix: Index, acc: Acc): Option<CourseDiff>
  {
    if !(acc.added <= ix.Keys && acc.modified.Keys <= ix.Keys) then None
    else if exists k :: k in acc.removed && FromIndexKey(k).None? then None
    else if exists k :: k in acc.modified && ChangedRecord(ix[k], acc.modified[k]).None? then None
    else Some(CourseDiff(
      map k | k in acc.added :: ToRecord(ix[k]),
      map k | k in acc.removed :: FromIndexKey(k).value,
      map k | k in acc.modified :: ChangedRecord(ix[k], acc.modified[k]).value))
  }

  /** compute_diff: the fold, then the lookups. */
  function DiffSince(all: seq<string>, ups: seq<(int, Update)>, ix: Index, since: int): Option<CourseDiff>
  {
    match ReplayFrom(all, Start, ups, since)
    case None => None
    case Some(acc) => Materialised(ix, acc)
  }

  /** `for attr in itertools.chain(COURSE_INDEX_ATTRS, attrs)` */
  method ReadChanged(c: Course, attrs: set<string>) returns (r: Option<Record>)
    ensures r == ChangedRecord(c, attrs)
  {
    var course: Record := map[];
    for i := 0 to |IndexAttrs|
      invariant course.Keys == AttrSet(IndexAttrs[..i])
      invariant forall a :: a in course ==> Get(c, a) == Some(course[a])
    {
      assert AttrSet(IndexAttrs[..i + 1]) == AttrSet(IndexAttrs[..i]) + {IndexAttrs[i]};
      course := course[IndexAttrs[i] := Get(c, IndexAttrs[i]).value];
    }
    assert IndexAttrs[..|IndexAttrs|] == IndexAttrs;
    var rest := attrs;
    while rest != {}
      invariant rest <= attrs
      invariant course.Keys == AttrSet(IndexAttrs) + (attrs - rest)
      invariant forall a :: a in course ==> Get(c, a) == Some(course[a])
      decreases rest
    {
      var a :| a in rest;
      if Get(c, a).None? {
        assert !(forall b :: b in attrs ==> Get(c, b).Some?);
        return None;
      }
      course := course[a := Get(c, a).value];
      rest := rest - {a};
    }
    ChangedRecordExt(c, attrs, course);
    r := Some(course);
  }

  /** A record with the right keys and the course's values is the one
      ChangedRecord describes. */
  lemma ChangedRecordExt(c: Course, attrs: set<string>, course: Record)
    requires forall a :: a in attrs ==> Get(c, a).Some?
    requires course.Keys == AttrSet(IndexAttrs) + attrs
    requires forall a :: a in course ==> Get(c, a) == Some(course[a])
    ensures ChangedRecord(c, attrs) == Some(course)
  {
    ChangedRecordSpec(c, attrs);
    var r := ChangedRecord(c, attrs).value;
    assert r.Keys == course.Keys;
    forall a | a in r
      ensures r[a] == course[a]
    {
      assert Get(c, a) == Some(r[a]);
    }
    assert r == course;
    assert ChangedRecord(c, attrs).Some?;
  }

  /** The three lookup loops of compute_diff. */
  method Materialise(ix: Index, acc: Acc) returns (r: Option<CourseDiff>)
    ensures r == Materialised(ix, acc)
  {
    var added := ReadAdded(ix, acc.added);
    if added.None? {
      return None;
    }
    var removed := ReadRemoved(acc.removed);
    if removed.None? {
      return None;
    }
    var modified := ReadModified(ix, acc.modified);
    if modified.None? {
      return None;
    }
    r := Some(CourseDiff(added.value, removed.value, modified.value));
  }

  /** `for key in added: added_courses.append(index[key])` */
  method ReadAdded(ix: Index, keys: set<string>) returns (r: Option<map<string, Record>>)
    ensures r.Some? <==> keys <= ix.Keys
    ensures r.Some? ==> r.value == map k | k in keys :: ToRecord(ix[k])
  {
    var added: map<string, Record> := map[];
    var rest := keys;
    while rest != {}
      invariant rest <= keys
      invariant keys - rest <= ix.Keys
      invariant added.Keys == keys - rest
      invariant forall k :: k in added ==> added[k] == ToRecord(ix[k])
      decreases rest
    {
      var key :| key in rest;
      if key !in ix {
        return None;
      }
      added := added[key := ToRecord(ix[key])];
      rest := rest - {key};
    }
    r := Some(added);
  }

  /** `for key in removed: removed_courses.append(course_from_index_key(key))` */
  method ReadRemoved(keys: set<string>) returns (r: Option<map<string, Record>>)
    ensures r.Some? <==> forall k :: k in keys ==> FromIndexKey(k).Some?
    ensures r.Some? ==> r.value == map k | k in keys :: FromIndexKey(k).value
  {
    var removed: map<string, Record> := map[];
    var rest := keys;
    while rest != {}
      invariant rest <= keys
      invariant removed.Keys == keys - rest
      invariant forall k :: k in removed ==> FromIndexKey(k) == Some(removed[k])
      decreases rest
    {
      var key :| key in rest;
      var placeholder := FromIndexKey(key);
      if placeholder.None? {
        return None;
      }
      removed := removed[key := placeholder.value];
      rest := rest - {key};
    }
    r := Some(removed);
  }

  /** The loop over the modified keys. */
  method ReadModified(ix: Index, attrs: map<string, set<string>>) returns (r: Option<map<string, Record>>)
    ensures r.Some? <==> attrs.Keys <= ix.Keys
                         && forall k :: k in attrs ==> ChangedRecord(ix[k], attrs[k]).Some?
    ensures r.Some? ==> r.value == map k | k in attrs :: ChangedRecord(ix[k], attrs[k]).value
  {
    var modified: map<string, Record> := map[];
    var rest := attrs.Keys;
    while rest != {}
      invariant rest <= attrs.Keys
      invariant modified.Keys == attrs.Keys - rest
      invariant forall k :: k in modified ==> k in ix && ChangedRecord(ix[k], attrs[k]) == Some(modified[k])
      decreases rest
    {
      var key :| key in rest;
      if key !in ix {
        return None;
      }
      var course := ReadChanged(ix[key], attrs[key]);
      if course.None? {
        return None;
      }
      modified := modified[key := course.value];
      rest := rest - {key};
    }
    r := Some(modified);
  }

  /** compute_diff. */
  method ComputeDiff(all: seq<string>, ups: seq<(int, Update)>, ix: Index, since: int)
    returns (r: Option<CourseDiff>)
    ensures r == DiffSince(all, ups, ix, since)
  {
    var acc := Replay(all, ups, since);
    if acc.None? {
      return None;
    }
    r := Materialise(ix, acc.value);
  }

  // ---------------------------------------------------------------
  // What the fold computes over a genuine history
  // ---------------------------------------------------------------

  /** The accumulators summarise the way from index `base` to index `cur`:
      added and removed are the key-set differences, and every tracked
      attribute in which a surviving course changed is recorded. */
  predicate Summarises(all: seq<string>, acc: Acc, base: Index, cur: Index)
  {
    && acc.added == cur.Keys - base.Keys
    && acc.removed == base.Keys - cur.Keys
    && acc.modified.Keys <= cur.Keys
    && (forall k :: k in acc.modified ==> acc.modified[k] <= AttrSet(all))
    && (forall k, a :: k in base && k in cur && a in all && Get(base[k], a) != Get(cur[k], a) ==>
          k in acc.modified && a in acc.modified[k])
  }

  /** The updates are those compute_update produced between consecutive
      indexes of `ixs`. */
  predicate Chain(all: seq<string>, ixs: seq<Index>, ups: seq<(int, Update)>)
  {
    && |ixs| == |ups| + 1
    && forall j :: 0 <= j < |ups| ==> ups[j].1 == UpdateOf(all, ixs[j], ixs[j + 1])
  }

  lemma StartSummarises(all: seq<string>, ix: Index)
    ensures Summarises(all, Start, ix, ix)
  {
  }

  /** First pass over a genuine update: no assertion fails, and a course
      present throughout has every attribute changed since `base` recorded. */
  lemma ModifiedPassSummarises(all: seq<string>, acc: Acc, base: Index, cur: Index, next: Index)
    returns (a1: Acc)
    requires Summarises(all, acc, base, cur)
    ensures MergeModified(acc, UpdateOf(all, cur, next).modified) == Some(a1)
    ensures a1.added == acc.added && a1.removed == acc.removed
    ensures a1.modified.Keys <= cur.Keys
    ensures forall k :: k in a1.modified ==> a1.modified[k] <= AttrSet(all)
    ensures forall k, a :: k in base && k in cur && k in next && a in all && Get(base[k], a) != Get(next[k], a) ==>
              k in a1.modified && a in a1.modified[k]
  {
    var m := UpdateOf(all, cur, next).modified;
    assert m.Keys * acc.removed == {};
    a1 := MergeModified(acc, m).value;
    forall k, a | k in base && k in cur && k in next && a in all && Get(base[k], a) != Get(next[k], a)
      ensures k in a1.modified && a in a1.modified[k]
    {
      if Get(cur[k], a) != Get(next[k], a) {
        UpdateOfSpec(all, cur, next, k, a);
      }
    }
  }

  /** Second pass: a key added is new since `cur`; one that was removed
      since `base` comes back fully modified. */
  lemma AddedPassSummarises(all: seq<string>, a1: Acc, base: Index, cur: Index, next: Index)
    returns (a2: Acc)
    requires a1.added == cur.Keys - base.Keys && a1.removed == base.Keys - cur.Keys
    requires a1.modified.Keys <= cur.Keys
    requires forall k :: k in a1.modified ==> a1.modified[k] <= AttrSet(all)
    requires forall k, a :: k in base && k in cur && k in next && a in all && Get(base[k], a) != Get(next[k], a) ==>
               k in a1.modified && a in a1.modified[k]
    ensures MergeAdded(all, a1, UpdateOf(all, cur, next).added) == Some(a2)
    ensures a2.added == (cur.Keys - base.Keys) + (next.Keys - cur.Keys - base.Keys)
    ensures a2.removed == base.Keys - cur.Keys - next.Keys
    ensures a2.modified.Keys <= cur.Keys + next.Keys
    ensures forall k :: k in a2.modified ==> a2.modified[k] <= AttrSet(all)
    ensures forall k, a :: k in base && k in next && a in all && Get(base[k], a) != Get(next[k], a) ==>
              k in a2.modified && a in a2.modified[k]
  {
    var added := UpdateOf(all, cur, next).added;
    assert added == next.Keys - cur.Keys;
    AddedKeySets(a1.added, a1.removed, a1.modified.Keys, base.Keys, cur.Keys, next.Keys);
    a2 := MergeAdded(all, a1, added).value;
  }

  lemma AddedKeySets(added: set<string>, removed: set<string>, modified: set<string>,
                     b: set<string>, c: set<string>, n: set<string>)
    requires added == c - b && removed == b - c && modified <= c
    ensures (n - c) * (modified + added) == {}
    ensures added + ((n - c) - removed) == (c - b) + (n - c - b)
    ensures removed - (n - c) == b - c - n
    ensures modified + (n - c) * removed <= c + n
  {
  }

  /** Third pass: a key removed was present in `cur`, so never removed
      already; what is left summarises the way from `base` to `next`. */
  lemma RemovedPassSummarises(all: seq<string>, a2: Acc, base: Index, cur: Index, next: Index)
    requires a2.added == (cur.Keys - base.Keys) + (next.Keys - cur.Keys - base.Keys)
    requires a2.removed == base.Keys - cur.Keys - next.Keys
    requires a2.modified.Keys <= cur.Keys + next.Keys
    requires forall k :: k in a2.modified ==> a2.modified[k] <= AttrSet(all)
    requires forall k, a :: k in base && k in next && a in all && Get(base[k], a) != Get(next[k], a) ==>
               k in a2.modified && a in a2.modified[k]
    ensures MergeRemoved(a2, UpdateOf(all, cur, next).removed).Some?
    ensures Summarises(all, MergeRemoved(a2, UpdateOf(all, cur, next).removed).value, base, next)
  {
    var removed := UpdateOf(all, cur, next).removed;
    assert removed == cur.Keys - next.Keys;
    var a3 := MergeRemoved(a2, removed).value;
    RemovedKeySets(a2.added, a2.removed, base.Keys, cur.Keys, next.Keys);
    assert a3.modified == map k | k in a2.modified && k !in removed :: a2.modified[k];
    DroppedKeysSummarise(all, a2.modified, a3.modified, base, next);
  }

  lemma RemovedKeySets(added: set<string>, removed: set<string>, b: set<string>, c: set<string>, n: set<string>)
    requires added == (c - b) + (n - c - b) && removed == b - c - n
    ensures (c - n) * removed == {}
    ensures added - (c - n) == n - b
    ensures removed + ((c - n) - added) == b - n
  {
  }

  /** Dropping keys absent from `next` keeps every recorded change of the
      courses that survive. */
  lemma DroppedKeysSummarise(all: seq<string>, m2: map<string, set<string>>, m3: map<string, set<string>>,
                             base: Index, next: Index)
    requires forall k :: k in m3 ==> k in m2 && m3[k] == m2[k]
    requires forall k :: k in m2 && k in next ==> k in m3
    requires forall k :: k in m2 ==> m2[k] <= AttrSet(all)
    requires forall k, a :: k in base && k in next && a in all && Get(base[k], a) != Get(next[k], a) ==>
               k in m2 && a in m2[k]
    ensures forall k :: k in m3 ==> m3[k] <= AttrSet(all)
    ensures forall k, a :: k in base && k in next && a in all && Get(base[k], a) != Get(next[k], a) ==>
              k in m3 && a in m3[k]
  {
  }

  /** Folding in the update between two consecutive indexes never fails
      and carries the summary from `base` on to the newer index. */
  lemma StepSummarises(all: seq<string>, acc: Acc, base: Index, cur: Index, next: Index)
    requires Summarises(all, acc, base, cur)
    ensures Step(all, acc, UpdateOf(all, cur, next)).Some?
    ensures Summarises(all, Step(all, acc, UpdateOf(all, cur, next)).value, base, next)
  {
    var a1 := ModifiedPassSummarises(all, acc, base, cur, next);
    var a2 := AddedPassSummarises(all, a1, base, cur, next);
    RemovedPassSummarises(all, a2, base, cur, next);
  }

  /** Over a genuine history whose updates are all newer than `since`,
      the fold never fails and summarises the way from its first index to
      its last. */
  lemma {:induction false} ReplayChain(all: seq<string>, ixs: seq<Index>, ups: seq<(int, Update)>, since: int,
                                       acc: Acc, base: Index)
    requires Chain(all, ixs, ups)
    requires forall j :: 0 <= j < |ups| ==> ups[j].0 > since
    requires Summarises(all, acc, base, ixs[0])
    ensures ReplayFrom(all, acc, ups, since).Some?
    ensures Summarises(all, ReplayFrom(all, acc, ups, since).value, base, ixs[|ups|])
    decreases |ups|
  {
    if ups != [] {
      StepSummarises(all, acc, base, ixs[0], ixs[1]);
      var a := Step(all, acc, ups[0].1).value;
      assert Chain(all, ixs[1..], ups[1..]) by {
        forall j | 0 <= j < |ups[1..]|
          ensures ups[1..][j].1 == UpdateOf(all, ixs[1..][j], ixs[1..][j + 1])
        {
          assert ups[1..][j] == ups[j + 1];
        }
      }
      ReplayChain(all, ixs[1..], ups[1..], since, a, base);
    }
  }

  /** Updates not newer than `since` are skipped. */
  lemma {:induction false} ReplaySkip(all: seq<string>, acc: Acc, ups: seq<(int, Update)>, since: int, m: nat)
    requires m <= |ups|
    requires forall j :: 0 <= j < m ==> ups[j].0 <= since
    ensures ReplayFrom(all, acc, ups, since) == ReplayFrom(all, acc, ups[m..], since)
    decreases m
  {
    if m > 0 {
      assert ups[1..][m - 1..] == ups[m..];
      ReplaySkip(all, acc, ups[1..], since, m - 1);
    }
  }

  /** A record removed since the client's timestamp and added back within
      the window is reported as modified in every tracked attribute, and as
      neither added nor removed. */
  lemma StepReadded(all: seq<string>, acc: Acc, u: Update, k: string)
    requires Step(all, acc, u).Some?
    requires k in acc.removed && k in u.added && k !in u.removed
    ensures var a := Step(all, acc, u).value;
            && k in a.modified && a.modified[k] == AttrSet(all)
            && k !in a.added && k !in a.removed
  {
    var a1 := MergeModified(acc, u.modified).value;
    assert a1.added == acc.added && a1.removed == acc.removed;
    assert MergeAdded(all, a1, u.added).Some?;
    var a2 := MergeAdded(all, a1, u.added).value;
    assert k in u.added * a1.removed;
    assert k in a2.modified && a2.modified[k] == AttrSet(all);
    assert k !in a1.added by {
      assert k !in u.added * (a1.modified.Keys + a1.added);
    }
    assert k !in a2.added && k !in a2.removed;
  }

  /** No key is both removed and added, or both removed and modified, and
      folding in an update keeps it so. */
  lemma StepKeepsRemovedApart(all: seq<string>, acc: Acc, u: Update)
    requires acc.removed !! acc.added && acc.removed !! acc.modified.Keys
    requires Step(all, acc, u).Some?
    ensures var a := Step(all, acc, u).value;
            a.removed !! a.added && a.removed !! a.modified.Keys
  {
  }

  /** Unlike removed, the added and modified accumulators can share a key:
      a course added and then changed within the window is served both in
      full and as a partial modified entry. */
  lemma AddedThenModified()
    ensures var u := Update({}, {}, map["CS/5/ /HM/1" := ["courseName"]]);
            var a := Step(CourseAttrs, Acc({"CS/5/ /HM/1"}, {}, map[]), u);
            a.Some? && "CS/5/ /HM/1" in a.value.added && "CS/5/ /HM/1" in a.value.modified
  {
    var u := Update({}, {}, map["CS/5/ /HM/1" := ["courseName"]]);
    var acc := Acc({"CS/5/ /HM/1"}, {}, map[]);
    var a1 := MergeModified(acc, u.modified).value;
    assert "CS/5/ /HM/1" in a1.modified;
  }

  // ---------------------------------------------------------------
  // What the answer means to the client
  // ---------------------------------------------------------------

  /** The courses of an index as the API serves them, by key. */
  function Served(ix: Index): map<string, Record>
  {
    map k | k in ix :: ToRecord(ix[k])
  }

  /** A client bringing its copy up to date with an incremental answer:
      removed courses go, added ones arrive in full, and a modified one
      takes the values of the attributes served for it. */
  function ApplyCourseDiff(client: map<string, Record>, d: CourseDiff): (r: map<string, Record>)
    ensures r.Keys == (client.Keys + d.added.Keys) - d.removed.Keys
  {
    map k | k in (client.Keys + d.added.Keys) - d.removed.Keys ::
      (if k in d.added then d.added[k] else client[k]) + (if k in d.modified then d.modified[k] else map[])
  }

  /** The tracked attributes of every course. */
  function TrackedView(all: seq<string>, m: map<string, Record>): (r: map<string, Record>)
    ensures r.Keys == m.Keys
  {
    map k | k in m :: map a | a in m[k] && a in all :: m[k][a]
  }

  /** Every key of the index reads back as a placeholder. */
  predicate Readable(ix: Index)
  {
    forall k :: k in ix ==> FromIndexKey(k).Some?
  }

  /** In an index of parsed courses, every key reads back as exactly the
      identity of the course filed under it. */
  lemma IndexedReadable(ix: Index)
    requires Indexed(ix)
    requires forall k :: k in ix ==> NoSlash(ix[k].id)
    ensures Readable(ix)
    ensures forall k :: k in ix ==> FromIndexKey(k) == Some(IdentityRecord(ix[k].id))
  {
    forall k | k in ix
      ensures FromIndexKey(k) == Some(IdentityRecord(ix[k].id))
    {
      IndexKeyRoundTrip(ix[k].id);
    }
  }

  /** Materialising a summary of the way from `base` to `cur` succeeds,
      and a client holding `base` that applies the answer holds `cur`, as
      far as the tracked attributes go. */
  lemma MaterialisedDelivers(all: seq<string>, acc: Acc, base: Index, cur: Index)
    requires Summarises(all, acc, base, cur)
    requires Tracked(cur, all)
    requires Readable(base)
    ensures Materialised(cur, acc).Some?
    ensures TrackedView(all, ApplyCourseDiff(Served(base), Materialised(cur, acc).value))
            == TrackedView(all, Served(cur))
  {
    var d := MaterialisedParts(all, acc, base, cur);
    var after := TrackedView(all, ApplyCourseDiff(Served(base), d));
    var want := TrackedView(all, Served(cur));
    forall k | k in cur
      ensures k in after && after[k] == want[k]
    {
      DeliveredCourse(all, acc, base, cur, d, k);
    }
    SameCopies(after, want);
  }

  lemma MaterialisedSome(all: seq<string>, acc: Acc, base: Index, cur: Index)
    requires acc.added <= cur.Keys && acc.removed <= base.Keys && acc.modified.Keys <= cur.Keys
    requires forall k :: k in acc.modified ==> acc.modified[k] <= AttrSet(all)
    requires Tracked(cur, all)
    requires Readable(base)
    ensures Materialised(cur, acc).Some?
  {
    ModifiedReadable(all, acc, cur);
    assert !exists k :: k in acc.removed && FromIndexKey(k).None?;
    assert !exists k :: k in acc.modified && ChangedRecord(cur[k], acc.modified[k]).None?;
  }

  /** Every modified course can be served: its changed attributes are
      tracked, and the current course carries every tracked attribute. */
  lemma ModifiedReadable(all: seq<string>, acc: Acc, cur: Index)
    requires acc.modified.Keys <= cur.Keys
    requires forall k :: k in acc.modified ==> acc.modified[k] <= AttrSet(all)
    requires Tracked(cur, all)
    ensures forall k :: k in acc.modified ==> ChangedRecord(cur[k], acc.modified[k]).Some?
  {
    forall k | k in acc.modified
      ensures ChangedRecord(cur[k], acc.modified[k]).Some?
    {
      forall a | a in acc.modified[k]
        ensures Get(cur[k], a).Some?
      {
        CompleteGet(cur[k], all, a);
      }
    }
  }

  lemma SameCopies(m1: map<string, Record>, m2: map<string, Record>)
    requires forall k :: k in m2 ==> k in m1 && m1[k] == m2[k]
    requires m1.Keys <= m2.Keys
    ensures m1 == m2
  {
  }

  /** The lookups succeed, and what they produce. */
  lemma MaterialisedParts(all: seq<string>, acc: Acc, base: Index, cur: Index) returns (d: CourseDiff)
    requires acc.added <= cur.Keys && acc.removed <= base.Keys && acc.modified.Keys <= cur.Keys
    requires forall k :: k in acc.modified ==> acc.modified[k] <= AttrSet(all)
    requires Tracked(cur, all)
    requires Readable(base)
    ensures Materialised(cur, acc) == Some(d)
    ensures d.added.Keys == acc.added
    ensures forall k :: k in d.added ==> d.added[k] == ToRecord(cur[k])
    ensures d.removed.Keys == acc.removed
    ensures d.modified.Keys == acc.modified.Keys
    ensures forall k :: k in acc.modified ==> ChangedRecord(cur[k], acc.modified[k]) == Some(d.modified[k])
  {
    MaterialisedSome(all, acc, base, cur);
    d := Materialised(cur, acc).value;
  }

  lemma CompleteGet(c: Course, all: seq<string>, a: string)
    requires Complete(c, all) && a in all
    ensures Get(c, a).Some?
  {
    var i :| 0 <= i < |all| && all[i] == a;
  }

  /** One course of the client's copy after the update. */
  lemma DeliveredCourse(all: seq<string>, acc: Acc, base: Index, cur: Index, d: CourseDiff, k: string)
    requires Summarises(all, acc, base, cur)
    requires d.added.Keys == acc.added
    requires forall k :: k in d.added ==> d.added[k] == ToRecord(cur[k])
    requires d.removed.Keys == acc.removed
    requires d.modified.Keys == acc.modified.Keys
    requires forall k :: k in acc.modified ==> ChangedRecord(cur[k], acc.modified[k]) == Some(d.modified[k])
    requires k in cur
    ensures k in ApplyCourseDiff(Served(base), d)
    ensures TrackedView(all, ApplyCourseDiff(Served(base), d))[k] == TrackedView(all, Served(cur))[k]
  {
    var b := if k in base then base[k] else cur[k];
    var extra := if k in d.modified then d.modified[k] else map[];
    AfterRecord(acc, base, cur, d, k);
    ExtraAgrees(all, acc, base, cur, d, k);
    Overlay(all, b, cur[k], extra);
  }

  /** The client's record for k after the update: the one it held, or the
      full course if k is new, with the partial record laid over it. */
  lemma AfterRecord(acc: Acc, base: Index, cur: Index, d: CourseDiff, k: string)
    requires acc.added == cur.Keys - base.Keys && acc.removed == base.Keys - cur.Keys
    requires d.added.Keys == acc.added
    requires forall k :: k in d.added ==> d.added[k] == ToRecord(cur[k])
    requires d.removed.Keys == acc.removed
    requires k in cur
    ensures k in ApplyCourseDiff(Served(base), d)
    ensures ApplyCourseDiff(Served(base), d)[k]
            == ToRecord(if k in base then base[k] else cur[k]) + (if k in d.modified then d.modified[k] else map[])
  {
    var after := ApplyCourseDiff(Served(base), d);
    var extra := if k in d.modified then d.modified[k] else map[];
    if k in base {
      assert k !in d.added && k !in d.removed;
      assert after[k] == Served(base)[k] + extra;
    } else {
      assert k in d.added;
      assert after[k] == d.added[k] + extra;
    }
  }

  /** The partial record carries the current values, and every tracked
      attribute it leaves out is one in which the course did not change. */
  lemma ExtraAgrees(all: seq<string>, acc: Acc, base: Index, cur: Index, d: CourseDiff, k: string)
    requires Summarises(all, acc, base, cur)
    requires d.modified.Keys == acc.modified.Keys
    requires forall k :: k in acc.modified ==> ChangedRecord(cur[k], acc.modified[k]) == Some(d.modified[k])
    requires k in cur
    ensures var extra := if k in d.modified then d.modified[k] else map[];
            && (forall a :: a in extra ==> Get(cur[k], a) == Some(extra[a]))
            && (forall a :: a in all && a !in extra ==> Get(if k in base then base[k] else cur[k], a) == Get(cur[k], a))
  {
    if k in acc.modified {
      ChangedRecordSpec(cur[k], acc.modified[k]);
    }
  }

  /** A served course with a partial record of another's values laid over
      it agrees with the other on every tracked attribute, provided the two
      courses agree on each one the partial record leaves out. */
  lemma Overlay(all: seq<string>, b: Course, c: Course, extra: Record)
    requires forall a :: a in extra ==> Get(c, a) == Some(extra[a])
    requires forall a :: a in all && a !in extra ==> Get(b, a) == Get(c, a)
    ensures var r, want := ToRecord(b) + extra, ToRecord(c);
            (map a | a in r && a in all :: r[a]) == (map a | a in want && a in all :: want[a])
  {
    var r, want := ToRecord(b) + extra, ToRecord(c);
    forall a | a in all
      ensures (a in r <==> a in want) && (a in r ==> r[a] == want[a])
    {
      if a in extra {
        assert r[a] == extra[a];
      } else {
        assert Get(b, a) == Get(c, a);
      }
    }
    SameView(all, r, want);
  }

  lemma SameView(all: seq<string>, r: Record, want: Record)
    requires forall a :: a in all ==> (a in r <==> a in want) && (a in r ==> r[a] == want[a])
    ensures (map a | a in r && a in all :: r[a]) == (map a | a in want && a in all :: want[a])
  {
  }

  /** compute_diff answers correctly whenever the retained updates cover
      the client's timestamp: if the updates up to position m are not newer
      than `since` and the rest are, a client holding the index that was
      current at `since` (ixs[m]) and applying the answer holds the current
      index, as far as the tracked attributes go. */
  lemma {:induction false} DiffSinceDelivers(all: seq<string>, ixs: seq<Index>, ups: seq<(int, Update)>,
                                             since: int, m: nat)
    requires Chain(all, ixs, ups)
    requires m <= |ups|
    requires forall j :: 0 <= j < m ==> ups[j].0 <= since
    requires forall j :: m <= j < |ups| ==> ups[j].0 > since
    requires Tracked(ixs[|ups|], all)
    requires Readable(ixs[m])
    ensures DiffSince(all, ups, ixs[|ups|], since).Some?
    ensures TrackedView(all, ApplyCourseDiff(Served(ixs[m]), DiffSince(all, ups, ixs[|ups|], since).value))
            == TrackedView(all, Served(ixs[|ups|]))
  {
    ReplaySkip(all, Start, ups, since, m);
    var rest, restIxs := ups[m..], ixs[m..];
    assert Chain(all, restIxs, rest) by {
      forall j | 0 <= j < |rest|
        ensures rest[j].1 == UpdateOf(all, restIxs[j], restIxs[j + 1])
      {
        assert rest[j] == ups[m + j];
      }
    }
    forall j | 0 <= j < |rest|
      ensures rest[j].0 > since
    {
      assert rest[j] == ups[m + j];
    }
    StartSummarises(all, ixs[m]);
    ReplayChain(all, restIxs, rest, since, Start, ixs[m]);
    assert restIxs[|rest|] == ixs[|ups|];
    MaterialisedDelivers(all, ReplayFrom(all, Start, rest, since).value, ixs[m], ixs[|ups|]);
  }
}
