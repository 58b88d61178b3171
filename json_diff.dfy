/** The JSON diff format of hyperschedule/api/diff.py: a diff of two
    objects is an object holding, for each key that changed, either the
    new value, the recursive diff of two objects, or the marker
    "$delete"; any other pair of values is replaced wholesale. */
module JsonDiff {
  import opened Util
  import opened JsonValue

  /** The marker for a key that the diff removes. */
  const Delete: Json := JStr("$delete")

  /** `{}`: the diff that changes nothing. */
  const Unchanged: Json := JObj(map[])

  /** compute_diff: a diff that takes `o1` to `o2`. */
  function ComputeDiff(o1: Json, o2: Json): Json
    decreases o2
  {
    if !o1.JObj? || !o2.JObj? then o2
    else
      var f1, f2 := o1.fields, o2.fields;
      JObj(map k | k in f1.Keys + f2.Keys && (k in f1 ==> k !in f2 || f1[k] != f2[k]) ::
             if k !in f2 then Delete
             else if k !in f1 then f2[k]
             else ComputeDiff(f1[k], f2[k]))
  }

  /** apply_diff: a new value, `o` with `d` applied; `o` itself is a value
      and stays as it was. */
  function ApplyDiff(o: Json, d: Json): Json
    decreases d
  {
    if !o.JObj? || !d.JObj? then d
    else
      var fo, fd := o.fields, d.fields;
      JObj(map k | k in fo.Keys + fd.Keys && (k in fd ==> fd[k] != Delete) ::
             if k !in fd then fo[k]
             else if k !in fo then fd[k]
             else ApplyDiff(fo[k], fd[k]))
  }

  /** merge_diffs: keys of either diff, one-sided entries copied, shared
      entries merged recursively; a non-object on either side gives `d2`. */
  function MergeDiffs(d1: Json, d2: Json): Json
    decreases d2
  {
    if !d1.JObj? || !d2.JObj? then d2
    else
      var f1, f2 := d1.fields, d2.fields;
      JObj(map k | k in f1.Keys + f2.Keys ::
             if k !in f1 then f2[k]
             else if k !in f2 then f1[k]
             else MergeDiffs(f1[k], f2[k]))
  }

  // ---------------------------------------------------------------
  // compute_diff
  // ---------------------------------------------------------------

  /** The entries of a diff of two objects: a key is mentioned exactly
      when it was added, changed or dropped; dropped keys carry "$delete",
      added keys their new value. */
  lemma ComputeDiffShape(o1: Json, o2: Json)
    requires o1.JObj? && o2.JObj?
    ensures ComputeDiff(o1, o2).JObj?
    ensures forall k :: k in ComputeDiff(o1, o2).fields <==>
                          (k in o2.fields && (k !in o1.fields || o1.fields[k] != o2.fields[k]))
                          || (k in o1.fields && k !in o2.fields)
    ensures forall k :: k in o1.fields && k !in o2.fields ==> ComputeDiff(o1, o2).fields[k] == Delete
    ensures forall k :: k in o2.fields && k !in o1.fields ==> ComputeDiff(o1, o2).fields[k] == o2.fields[k]
    ensures forall k :: k in o1.fields && k in o2.fields && o1.fields[k] != o2.fields[k] ==>
                          ComputeDiff(o1, o2).fields[k] == ComputeDiff(o1.fields[k], o2.fields[k])
  {
  }

  /** Equal values differ by the empty diff (or, for non-objects, by the
      value itself). */
  lemma ComputeDiffSelf(o: Json)
    ensures o.JObj? ==> ComputeDiff(o, o) == Unchanged
    ensures !o.JObj? ==> ComputeDiff(o, o) == o
  {
    if o.JObj? {
      assert ComputeDiff(o, o).fields.Keys == {};
    }
  }

  // ---------------------------------------------------------------
  // apply_diff and the round trip
  // ---------------------------------------------------------------

  /** The condition under which the diff from `o1` to `o2` restores `o2`:
      no value it carries for an added or changed key is the string
      "$delete", at any depth the diff descends to. */
  predicate DeleteSafe(o1: Json, o2: Json)
    decreases o2
  {
    o1.JObj? && o2.JObj? ==>
      forall k :: k in o2.fields && (k !in o1.fields || o1.fields[k] != o2.fields[k]) ==>
                    && o2.fields[k] != Delete
                    && (k in o1.fields ==> DeleteSafe(o1.fields[k], o2.fields[k]))
  }

  /** The docstring's promise, made exact: applying the computed diff to
      `o1` gives `o2` exactly when the diff never has to carry a literal
      "$delete" (which apply_diff would read as a removal). */
  lemma {:induction false} RoundTrip(o1: Json, o2: Json)
    ensures ApplyDiff(o1, ComputeDiff(o1, o2)) == o2 <==> DeleteSafe(o1, o2)
    decreases o2
  {
    if o1.JObj? && o2.JObj? {
      var f1, f2 := o1.fields, o2.fields;
      var d := ComputeDiff(o1, o2);
      var r := ApplyDiff(o1, d);
      forall k | k in f1 && k in f2 && f1[k] != f2[k]
        ensures ApplyDiff(f1[k], d.fields[k]) == f2[k] <==> DeleteSafe(f1[k], f2[k])
        ensures d.fields[k] == Delete <==> f2[k] == Delete
      {
        RoundTrip(f1[k], f2[k]);
      }
      if DeleteSafe(o1, o2) {
        assert r.fields.Keys == f2.Keys;
        assert r.fields == f2;
      }
      if r == o2 {
        forall k | k in f2 && (k !in f1 || f1[k] != f2[k])
          ensures f2[k] != Delete && (k in f1 ==> DeleteSafe(f1[k], f2[k]))
        {
          assert k in r.fields;
        }
      }
    }
  }

  /** The value of key `k` in `o`, if `o` is an object holding it. */
  function Lookup(o: Json, k: string): Option<Json>
  {
    if o.JObj? && k in o.fields then Some(o.fields[k]) else None
  }

  /** What apply_diff does to the entry of one key: `b` is the entry
      before (None when absent), `d` the diff's entry for that key. */
  function Patch(b: Option<Json>, d: Json): Option<Json>
  {
    if d == Delete then None
    else if b.None? then Some(d)
    else Some(ApplyDiff(b.value, d))
  }

  /** Two objects with the same entries are equal. */
  lemma ObjectExt(a: Json, b: Json)
    requires a.JObj? && b.JObj?
    requires forall k :: Lookup(a, k) == Lookup(b, k)
    ensures a == b
  {
    forall k | k in a.fields ensures k in b.fields && a.fields[k] == b.fields[k] {
      assert Lookup(a, k) == Lookup(b, k);
    }
    forall k | k in b.fields ensures k in a.fields {
      assert Lookup(a, k) == Lookup(b, k);
    }
    assert a.fields == b.fields;
  }

  /** apply_diff key by key: keys the diff does not mention keep their
      entries, the others are patched. */
  lemma ApplyPointwise(o: Json, d: Json, k: string)
    requires o.JObj? && d.JObj?
    ensures Lookup(ApplyDiff(o, d), k) == if k in d.fields then Patch(Lookup(o, k), d.fields[k]) else Lookup(o, k)
  {
  }

  /** Removing a key the object does not have leaves it unchanged, and so
      does the empty diff. */
  lemma ApplyNoOp(o: Json, k: string)
    requires o.JObj? && k !in o.fields
    ensures ApplyDiff(o, JObj(map[k := Delete])) == o
    ensures ApplyDiff(o, Unchanged) == o
  {
    assert ApplyDiff(o, JObj(map[k := Delete])).fields == o.fields;
    assert ApplyDiff(o, Unchanged).fields == o.fields;
  }

  // ---------------------------------------------------------------
  // merge_diffs
  // ---------------------------------------------------------------

  /** Merging after the empty diff gives the second diff. */
  lemma MergeUnchanged(d: Json)
    ensures MergeDiffs(Unchanged, d) == d
  {
    if d.JObj? {
      assert MergeDiffs(Unchanged, d).fields == d.fields;
    }
  }

  /** When no "$delete" appears in `d2` wherever it meets `d1` as a plain
      value, applying `d2` to `d1` is the same as merging them. */
  predicate LiteralSafe(d1: Json, d2: Json)
    decreases d2
  {
    d1.JObj? && d2.JObj? ==>
      forall k :: k in d2.fields ==>
                    && d2.fields[k] != Delete
                    && (k in d1.fields ==> LiteralSafe(d1.fields[k], d2.fields[k]))
  }

  lemma {:induction false} LiteralMerge(d1: Json, d2: Json)
    requires d1.JObj? && d2.JObj? && LiteralSafe(d1, d2)
    ensures ApplyDiff(d1, d2) == MergeDiffs(d1, d2)
    decreases d2
  {
    var f1, f2 := d1.fields, d2.fields;
    forall k | k in f1 && k in f2
      ensures ApplyDiff(f1[k], f2[k]) == MergeDiffs(f1[k], f2[k])
    {
      if f1[k].JObj? && f2[k].JObj? {
        LiteralMerge(f1[k], f2[k]);
      }
    }
    assert ApplyDiff(d1, d2).fields == MergeDiffs(d1, d2).fields;
  }

  /** The condition under which the merged diff does to an entry `b` what
      the two diffs do in turn: a diff that replaces a value wholesale (or
      deletes it) and is followed by an object diff must meet no object in
      `b`, and an object diff followed by an object diff must not
      reintroduce literal "$delete" where `b` holds no object. */
  predicate MergeAgrees(b: Option<Json>, d1: Json, d2: Json)
    decreases d2
  {
    if !d2.JObj? then true
    else if !d1.JObj? then b.None? || !b.value.JObj?
    else if b.None? || !b.value.JObj? then LiteralSafe(d1, d2)
    else forall k :: k in d1.fields && k in d2.fields ==>
                       MergeAgrees(Lookup(b.value, k), d1.fields[k], d2.fields[k])
  }

  /** merge_diffs is equivalent to applying both diffs in sequence, on
      every value that meets MergeAgrees. */
  lemma {:induction false} MergeSound(v: Json, d1: Json, d2: Json)
    requires MergeAgrees(Some(v), d1, d2)
    ensures ApplyDiff(ApplyDiff(v, d1), d2) == ApplyDiff(v, MergeDiffs(d1, d2))
    decreases d2, 1
  {
    if d1.JObj? && d2.JObj? {
      if !v.JObj? {
        LiteralMerge(d1, d2);
      } else {
        var m := MergeDiffs(d1, d2);
        var a1 := ApplyDiff(v, d1);
        forall k ensures Lookup(ApplyDiff(a1, d2), k) == Lookup(ApplyDiff(v, m), k) {
          ApplyPointwise(v, d1, k);
          ApplyPointwise(a1, d2, k);
          ApplyPointwise(v, m, k);
          if k in d1.fields && k in d2.fields {
            PatchMerge(Lookup(v, k), d1.fields[k], d2.fields[k]);
          }
        }
        ObjectExt(ApplyDiff(a1, d2), ApplyDiff(v, m));
      }
    }
  }

  /** The same for one key's entry. */
  lemma {:induction false} PatchMerge(b: Option<Json>, d1: Json, d2: Json)
    requires MergeAgrees(b, d1, d2)
    ensures Patch(Patch(b, d1), d2) == Patch(b, MergeDiffs(d1, d2))
    decreases d2, 2
  {
    if d1.JObj? && d2.JObj? {
      if b.None? || !b.value.JObj? {
        LiteralMerge(d1, d2);
      } else {
        MergeSound(b.value, d1, d2);
      }
    }
  }

  // ---------------------------------------------------------------
  // Concrete cases
  // ---------------------------------------------------------------

  /** `{k: v}` */
  function One(k: string, v: Json): Json
  {
    JObj(map[k := v])
  }

  /** The merged diff of `a -> b` and `b -> c`, applied to `a` or to `b`,
      gives `c`. */
  predicate MergedReaches(a: Json, b: Json, c: Json)
  {
    ApplyDiff(a, Merged(a, b, c)) == c && ApplyDiff(b, Merged(a, b, c)) == c
  }

  /** The diff of `a -> b` merged with the diff of `b -> c`. */
  function Merged(a: Json, b: Json, c: Json): Json
  {
    MergeDiffs(ComputeDiff(a, b), ComputeDiff(b, c))
  }

  /** The two diffs, applied in turn to `a`, give `c`. */
  predicate SequenceReaches(a: Json, b: Json, c: Json)
  {
    ApplyDiff(ApplyDiff(a, ComputeDiff(a, b)), ComputeDiff(b, c)) == c
  }

  /** compute_diff, apply_diff and merge_diffs on one-key objects. */
  lemma ComputeOne(k: string, x: Json, y: Json)
    ensures ComputeDiff(One(k, x), One(k, y)) == if x == y then Unchanged else One(k, ComputeDiff(x, y))
  {
    assert ComputeDiff(One(k, x), One(k, y)).fields == if x == y then map[] else map[k := ComputeDiff(x, y)];
  }

  lemma ComputeAdded(k: string, y: Json)
    ensures ComputeDiff(Unchanged, One(k, y)) == One(k, y)
  {
    assert ComputeDiff(Unchanged, One(k, y)).fields == map[k := y];
  }

  lemma ComputeDropped(k: string, x: Json)
    ensures ComputeDiff(One(k, x), Unchanged) == One(k, Delete)
  {
    assert ComputeDiff(One(k, x), Unchanged).fields == map[k := Delete];
  }

  lemma MergeOne(k: string, x: Json, y: Json)
    ensures MergeDiffs(One(k, x), One(k, y)) == One(k, MergeDiffs(x, y))
  {
    assert MergeDiffs(One(k, x), One(k, y)).fields == map[k := MergeDiffs(x, y)];
  }

  lemma ApplyOne(k: string, x: Json, y: Json)
    requires y != Delete
    ensures ApplyDiff(One(k, x), One(k, y)) == One(k, ApplyDiff(x, y))
    ensures ApplyDiff(Unchanged, One(k, y)) == One(k, y)
  {
    assert ApplyDiff(One(k, x), One(k, y)).fields == map[k := ApplyDiff(x, y)];
    assert ApplyDiff(Unchanged, One(k, y)).fields == map[k := y];
  }

  lemma ApplyDropped(k: string, x: Json)
    ensures ApplyDiff(Unchanged, One(k, Delete)) == Unchanged
    ensures ApplyDiff(One(k, x), One(k, Delete)) == Unchanged
  {
    assert ApplyDiff(Unchanged, One(k, Delete)).fields == map[];
    assert ApplyDiff(One(k, x), One(k, Delete)).fields == map[];
  }

  // The six chains hyperschedule/tests/test_diff.py checks.

  /** A value changed twice. */
  lemma ChangedTwice()
    ensures MergedReaches(One("foo", JStr("a")), One("foo", JStr("b")), One("foo", JStr("c")))
  {
    var a, b, c := JStr("a"), JStr("b"), JStr("c");
    ComputeOne("foo", a, b);
    ComputeOne("foo", b, c);
    MergeOne("foo", b, c);
    ApplyOne("foo", a, c);
    ApplyOne("foo", b, c);
  }

  /** A key added, then changed. */
  lemma AddedThenChanged()
    ensures MergedReaches(Unchanged, One("foo", JStr("b")), One("foo", JStr("c")))
  {
    var b, c := JStr("b"), JStr("c");
    ComputeAdded("foo", b);
    ComputeOne("foo", b, c);
    MergeOne("foo", b, c);
    ApplyOne("foo", b, c);
  }

  /** A key dropped, then added back. */
  lemma DroppedThenReadded()
    ensures MergedReaches(One("foo", JStr("a")), Unchanged, One("foo", JStr("c")))
  {
    var a, c := JStr("a"), JStr("c");
    ComputeDropped("foo", a);
    ComputeAdded("foo", c);
    MergeOne("foo", Delete, c);
    ApplyOne("foo", a, c);
  }

  /** A key added, then dropped. */
  lemma AddedThenDropped()
    ensures MergedReaches(Unchanged, One("foo", JStr("b")), Unchanged)
  {
    var b := JStr("b");
    ComputeAdded("foo", b);
    ComputeDropped("foo", b);
    MergeOne("foo", b, Delete);
    ApplyDropped("foo", b);
  }

  /** A key added holding an object, then replaced by a string. */
  lemma ObjectThenString()
    ensures MergedReaches(Unchanged, One("foo", One("bar", JStr("b"))), One("foo", JStr("c")))
  {
    var bar, c := One("bar", JStr("b")), JStr("c");
    ComputeAdded("foo", bar);
    ComputeOne("foo", bar, c);
    MergeOne("foo", bar, c);
    ApplyOne("foo", bar, c);
  }

  /** A string replaced by an object with the keys the original object had. */
  lemma StringThenObject()
    ensures MergedReaches(One("foo", One("bar", JStr("a"))), One("foo", JStr("b")), One("foo", One("bar", JStr("b"))))
  {
    var a, b := JStr("a"), JStr("b");
    var barA, barB := One("bar", a), One("bar", b);
    ComputeOne("foo", barA, b);
    ComputeOne("foo", b, barB);
    MergeOne("foo", b, barB);
    ApplyOne("foo", barA, barB);
    ApplyOne("bar", a, b);
    ApplyOne("foo", b, barB);
  }

  // Chains where merging is not equivalent to applying in turn.

  /** `{p: 1}` and `{q: 1}` */
  function P(): Json { One("p", JInt(1)) }
  function Q(): Json { One("q", JInt(1)) }

  /** `{p: 1, q: 1}`: what `{q: 1}` applied to `{p: 1}` leaves. */
  lemma StaleKey()
    ensures ApplyDiff(P(), Q()) != Q()
  {
    ApplyPointwise(P(), Q(), "p");
    assert Lookup(Q(), "p") == None;
  }

  /** An object dropped, then added back with other keys: the merged diff
      keeps the old object's keys. */
  lemma DeleteThenObject()
    ensures SequenceReaches(One("x", P()), Unchanged, One("x", Q()))
    ensures ApplyDiff(One("x", P()), Merged(One("x", P()), Unchanged, One("x", Q()))) != One("x", Q())
  {
    ComputeDropped("x", P());
    ComputeAdded("x", Q());
    ApplyDropped("x", P());
    ApplyOne("x", P(), Q());
    MergeOne("x", Delete, Q());
    assert Merged(One("x", P()), Unchanged, One("x", Q())) == One("x", Q());
    StaleKey();
    Differs("x", ApplyDiff(P(), Q()), Q());
  }

  /** An object replaced by a string, then by an object with other keys. */
  lemma ValueThenObject()
    ensures SequenceReaches(One("x", P()), One("x", JStr("v")), One("x", Q()))
    ensures ApplyDiff(One("x", P()), Merged(One("x", P()), One("x", JStr("v")), One("x", Q()))) != One("x", Q())
  {
    var v := JStr("v");
    ComputeOne("x", P(), v);
    ComputeOne("x", v, Q());
    ApplyOne("x", P(), v);
    ApplyOne("x", v, Q());
    MergeOne("x", v, Q());
    assert Merged(One("x", P()), One("x", v), One("x", Q())) == One("x", Q());
    ApplyOne("x", P(), Q());
    StaleKey();
    Differs("x", ApplyDiff(P(), Q()), Q());
  }

  /** An object added, then emptied: the merged diff writes a literal
      "$delete" into the new key. */
  lemma AddedThenEmptied()
    ensures SequenceReaches(Unchanged, One("x", P()), One("x", Unchanged))
    ensures ApplyDiff(Unchanged, Merged(Unchanged, One("x", P()), One("x", Unchanged))) != One("x", Unchanged)
  {
    EmptiedSequence();
    var gone := One("p", Delete);
    EmptiedDiff();
    ComputeAdded("x", P());
    EmptiedMerge();
    ApplyOne("x", Unchanged, gone);
    NotUnchanged("p", Delete);
    Differs("x", gone, Unchanged);
  }

  lemma EmptiedSequence()
    ensures SequenceReaches(Unchanged, One("x", P()), One("x", Unchanged))
  {
    EmptiedDiff();
    ComputeAdded("x", P());
    ApplyOne("x", Unchanged, P());
    ApplyOne("x", P(), One("p", Delete));
    ApplyDropped("p", JInt(1));
  }

  /** The merged diff writes `{p: "$delete"}` under `x`. */
  lemma EmptiedMerge()
    ensures MergeDiffs(One("x", P()), One("x", One("p", Delete))) == One("x", One("p", Delete))
  {
    MergeOne("x", P(), One("p", Delete));
    MergeOne("p", JInt(1), Delete);
  }

  /** The diff that empties the object under `x`. */
  lemma EmptiedDiff()
    ensures ComputeDiff(One("x", P()), One("x", Unchanged)) == One("x", One("p", Delete))
  {
    ComputeOne("x", P(), Unchanged);
    ComputeDropped("p", JInt(1));
  }

  /** A one-key object is not the empty diff. */
  lemma NotUnchanged(k: string, x: Json)
    ensures One(k, x) != Unchanged
  {
    assert k in One(k, x).fields;
  }

  /** One-key objects with different values differ. */
  lemma Differs(k: string, x: Json, y: Json)
    requires x != y
    ensures One(k, x) != One(k, y)
  {
    assert One(k, x).fields[k] != One(k, y).fields[k];
  }

  /** A string that no key of `keys` equals. */
  lemma {:induction false} FreshKey(keys: set<string>) returns (s: string)
    ensures s !in keys
  {
    var n := LongerThanAll(keys);
    s := seq(n, _ => 'k');
  }

  lemma {:induction false} LongerThanAll(keys: set<string>) returns (n: nat)
    ensures forall t :: t in keys ==> |t| < n
    decreases |keys|
  {
    if keys == {} {
      n := 0;
    } else {
      var t :| t in keys;
      var m := LongerThanAll(keys - {t});
      n := if m > |t| then m else |t| + 1;
    }
  }

  /** No diff at all is equivalent to "drop x" followed by "set x to
      {q: 1}" on every object: whatever `d` is, some object holding `x`
      tells them apart. So merge_diffs cannot be repaired within this diff
      format. */
  lemma {:induction false} NoMergeExists(d: Json) returns (v: Json)
    ensures v.JObj? && "x" in v.fields
    ensures ApplyDiff(ApplyDiff(v, One("x", Delete)), One("x", Q())) == One("x", Q())
    ensures ApplyDiff(v, d) != One("x", Q())
  {
    var inner := if d.JObj? && "x" in d.fields && d.fields["x"].JObj? then d.fields["x"].fields.Keys else {};
    var s := FreshKey(inner + {"q"});
    var old1 := One(s, JInt(1));
    v := One("x", old1);
    ApplyDropped("x", old1);
    ApplyOne("x", Unchanged, Q());
    assert Lookup(Q(), s) == None;
    if d.JObj? {
      ApplyPointwise(v, d, "x");
      assert Lookup(One("x", Q()), "x") == Some(Q());
      if "x" in d.fields && d.fields["x"] != Delete && d.fields["x"].JObj? {
        ApplyPointwise(old1, d.fields["x"], s);
      }
    }
  }
}
