/** DiffManager of hyperschedule/api/diff.py: one current data object,
    its age, and a pruned list of `(age, diff)` entries from which a diff
    to the present can be served for any past age. */
module DiffManagers {
  import opened Util
  import opened JsonValue
  import opened JsonDiff

  /** `(old_age, diff)`: a diff from the data current at `old_age`. */
  type Entry = (int, Json)

  /** `self.state`: `(Unset, Unset, [])` before the first update, then
      `(age, data, diffs)`. */
  datatype State = Unset | Versioned(age: int, data: Json, diffs: seq<Entry>)

  /** The answer tuple `(diff, full, current_age)` of get_diff_to_present;
      None stands for `Unset`. */
  datatype Answer = Answer(diff: Option<Json>, full: Option<bool>, age: Option<int>)

  function Pow2(n: nat): nat
  {
    if n == 0 then 1 else 2 * Pow2(n - 1)
  }

  // ---------------------------------------------------------------
  // Pruning
  // ---------------------------------------------------------------

  /** The pruning pass from the newest entry back: an entry younger than
      `threshold` (long_enough_to_keep) is dropped, a kept one doubles it. */
  function Kept(diffs: seq<Entry>, newAge: int, threshold: nat): seq<Entry>
    decreases |diffs|
  {
    if diffs == [] then []
    else
      var e := diffs[|diffs| - 1];
      if newAge - e.0 < threshold then Kept(diffs[..|diffs| - 1], newAge, threshold)
      else Kept(diffs[..|diffs| - 1], newAge, 2 * threshold) + [e]
  }

  /** The entries set_current_data keeps before pushing the new one. */
  function Pruned(diffs: seq<Entry>, newAge: int): seq<Entry>
  {
    Kept(diffs, newAge, 1)
  }

  /** The kept entries, counted from the newest, are at least `threshold`,
      twice that, four times that ... older than `newAge`. */
  lemma {:induction false} KeptSpacing(diffs: seq<Entry>, newAge: int, threshold: nat)
    ensures forall j :: 0 <= j < |Kept(diffs, newAge, threshold)| ==>
              newAge - Kept(diffs, newAge, threshold)[j].0
              >= threshold * Pow2(|Kept(diffs, newAge, threshold)| - 1 - j)
    decreases |diffs|
  {
    if diffs != [] {
      var e, rest := diffs[|diffs| - 1], diffs[..|diffs| - 1];
      if newAge - e.0 < threshold {
        KeptSpacing(rest, newAge, threshold);
      } else {
        KeptSpacing(rest, newAge, 2 * threshold);
        var k := Kept(rest, newAge, 2 * threshold);
        assert Kept(diffs, newAge, threshold) == k + [e];
        forall j | 0 <= j < |k|
          ensures newAge - k[j].0 >= threshold * Pow2(|k| - j)
        {
          assert Pow2(|k| - j) == 2 * Pow2(|k| - 1 - j);
        }
      }
    }
  }

  /** Entries in strictly increasing age order. */
  predicate AgesIncreasing(diffs: seq<Entry>)
  {
    forall i, j :: 0 <= i < j < |diffs| ==> diffs[i].0 < diffs[j].0
  }

  /** Pruning only drops entries and keeps the rest in order. */
  lemma {:induction false} KeptSubsequence(diffs: seq<Entry>, newAge: int, threshold: nat)
    ensures |Kept(diffs, newAge, threshold)| <= |diffs|
    ensures forall e :: e in Kept(diffs, newAge, threshold) ==> e in diffs
    ensures AgesIncreasing(diffs) ==> AgesIncreasing(Kept(diffs, newAge, threshold))
    decreases |diffs|
  {
    if diffs != [] {
      var e, rest := diffs[|diffs| - 1], diffs[..|diffs| - 1];
      var t := if newAge - e.0 < threshold then threshold else 2 * threshold;
      KeptSubsequence(rest, newAge, t);
      assert forall x :: x in rest ==> x in diffs;
      if AgesIncreasing(diffs) && newAge - e.0 >= threshold {
        var k := Kept(rest, newAge, t);
        assert Kept(diffs, newAge, threshold) == k + [e];
        assert AgesIncreasing(rest);
        forall x | x in k ensures x.0 < e.0 {
          var i :| 0 <= i < |rest| && rest[i] == x;
          assert diffs[i] == x;
        }
        AppendLater(k, e);
      }
    }
  }

  lemma AppendLater(k: seq<Entry>, e: Entry)
    requires AgesIncreasing(k) && forall x :: x in k ==> x.0 < e.0
    ensures AgesIncreasing(k + [e])
  {
    var r := k + [e];
    forall i, j | 0 <= i < j < |r| ensures r[i].0 < r[j].0 {
      assert r[i] == k[i];
      if j < |k| {
        assert r[j] == k[j];
      }
    }
  }

  /** The docstring's logarithmic bound: if every entry is at least
      `oldest`, the n entries that survive pruning span at least 2^(n-1)
      time units, so n is at most log2(newAge - oldest) + 1. */
  lemma PrunedLogarithmic(diffs: seq<Entry>, newAge: int, oldest: int)
    requires forall i :: 0 <= i < |diffs| ==> diffs[i].0 >= oldest
    ensures |Pruned(diffs, newAge)| > 0 ==> Pow2(|Pruned(diffs, newAge)| - 1) <= newAge - oldest
  {
    var k := Pruned(diffs, newAge);
    if |k| > 0 {
      KeptSpacing(diffs, newAge, 1);
      KeptSubsequence(diffs, newAge, 1);
      assert k[0] in diffs;
    }
  }

  // ---------------------------------------------------------------
  // Updates and lookups
  // ---------------------------------------------------------------

  /** The state after set_current_data(newAge, newData): the first call
      stores no diff; later calls prune, push `(previous age, {})` and
      merge the diff from the previous data into every entry. */
  function Next(s: State, newAge: int, newData: Json): State
  {
    match s
    case Unset => Versioned(newAge, newData, [])
    case Versioned(age, data, diffs) =>
      var kept := Pruned(diffs, newAge) + [(age, Unchanged)];
      var d := ComputeDiff(data, newData);
      Versioned(newAge, newData, seq(|kept|, j requires 0 <= j < |kept| => (kept[j].0, MergeDiffs(kept[j].1, d))))
  }

  /** After an update the newest entry is exactly the diff from the
      previous data, under the previous age, and every older surviving
      entry has that diff merged in. */
  lemma NextEntries(s: State, newAge: int, newData: Json)
    requires s.Versioned?
    ensures var n := Next(s, newAge, newData);
            var p := Pruned(s.diffs, newAge);
            && n.Versioned? && n.age == newAge && n.data == newData
            && |n.diffs| == |p| + 1
            && n.diffs[|p|] == (s.age, ComputeDiff(s.data, newData))
            && forall j :: 0 <= j < |p| ==> n.diffs[j] == (p[j].0, MergeDiffs(p[j].1, ComputeDiff(s.data, newData)))
  {
    MergeUnchanged(ComputeDiff(s.data, newData));
  }

  /** The index of the newest entry no younger than `since`. */
  function NewestAtMost(diffs: seq<Entry>, since: int): (j: Option<nat>)
    ensures j.Some? ==> j.value < |diffs|
    decreases |diffs|
  {
    if diffs == [] then None
    else if diffs[|diffs| - 1].0 <= since then Some(|diffs| - 1)
    else NewestAtMost(diffs[..|diffs| - 1], since)
  }

  lemma {:induction false} NewestAtMostSpec(diffs: seq<Entry>, since: int)
    ensures NewestAtMost(diffs, since).Some? ==>
              && NewestAtMost(diffs, since).value < |diffs|
              && diffs[NewestAtMost(diffs, since).value].0 <= since
              && forall i :: NewestAtMost(diffs, since).value < i < |diffs| ==> diffs[i].0 > since
    ensures NewestAtMost(diffs, since).None? ==> forall i :: 0 <= i < |diffs| ==> diffs[i].0 > since
    decreases |diffs|
  {
    if diffs != [] && diffs[|diffs| - 1].0 > since {
      var rest := diffs[..|diffs| - 1];
      NewestAtMostSpec(rest, since);
      assert forall i :: 0 <= i < |rest| ==> rest[i] == diffs[i];
    }
  }

  /** get_diff_to_present(since): no data and a `since` gives Unset three
      times; no `since` gives the full data; a `since` at or after the
      current age gives `{}`; otherwise the newest entry no younger than
      `since`, or the full data when there is none. */
  function Answered(s: State, since: Option<int>): Answer
  {
    match s
    case Unset => if since.Some? then Answer(None, None, None) else Answer(None, Some(true), None)
    case Versioned(age, data, diffs) =>
      if since.None? then Answer(Some(data), Some(true), Some(age))
      else if since.value >= age then Answer(Some(Unchanged), Some(false), Some(age))
      else match NewestAtMost(diffs, since.value)
        case Some(j) => Answer(Some(diffs[j].1), Some(false), Some(age))
        case None => Answer(Some(data), Some(true), Some(age))
  }

  /** A reader that held the data of the previous update, asking right
      after the next one, receives the computed diff, which restores the
      new data unless it has to carry a literal "$delete". */
  lemma LatestDelivers(s: State, newAge: int, newData: Json)
    requires s.Versioned? && newAge > s.age
    ensures Answered(Next(s, newAge, newData), Some(s.age))
            == Answer(Some(ComputeDiff(s.data, newData)), Some(false), Some(newAge))
    ensures ApplyDiff(s.data, Answered(Next(s, newAge, newData), Some(s.age)).diff.value) == newData
            <==> DeleteSafe(s.data, newData)
  {
    NextEntries(s, newAge, newData);
    RoundTrip(s.data, newData);
  }

  /** What the manager promises, for the entries it still holds: `past`
      maps each earlier age to the data current then, the entries are in
      increasing age order and older than the present, and each entry
      applied to the data of its own age gives the present data. */
  ghost predicate Delivers(s: State, past: map<int, Json>)
  {
    s.Versioned? ==>
      && AgesIncreasing(s.diffs)
      && forall e :: e in s.diffs ==>
           e.0 < s.age && e.0 in past && ApplyDiff(past[e.0], e.1) == s.data
  }

  /** The conditions under which one update keeps that promise: the
      computed diff restores the new data (no literal "$delete" to carry),
      and merging it into each surviving entry is sound on that entry's
      base data. */
  ghost predicate StepMergeable(s: State, past: map<int, Json>, newAge: int, newData: Json)
  {
    s.Versioned? ==>
      && DeleteSafe(s.data, newData)
      && forall e :: e in Pruned(s.diffs, newAge) && e.0 in past ==>
           MergeAgrees(Some(past[e.0]), e.1, ComputeDiff(s.data, newData))
  }

  /** set_current_data keeps the promise across an update at a later age,
      with the data it replaces recorded under its age; before the first
      update there is nothing to keep. */
  lemma NextDelivers(s: State, past: map<int, Json>, newAge: int, newData: Json)
    requires Delivers(s, past) && StepMergeable(s, past, newAge, newData)
    requires s.Versioned? ==> newAge > s.age
    ensures Delivers(Next(s, newAge, newData), if s.Versioned? then past[s.age := s.data] else past)
  {
    if s.Versioned? {
      var n := Next(s, newAge, newData);
      var p := Pruned(s.diffs, newAge);
      var d := ComputeDiff(s.data, newData);
      var later := past[s.age := s.data];
      NextEntries(s, newAge, newData);
      KeptSubsequence(s.diffs, newAge, 1);
      RoundTrip(s.data, newData);
      forall e | e in n.diffs
        ensures e.0 < newAge && e.0 in later && ApplyDiff(later[e.0], e.1) == newData
      {
        var j :| 0 <= j < |n.diffs| && n.diffs[j] == e;
        if j < |p| {
          var q := p[j];
          assert q in p && q in s.diffs;
          MergeSound(past[q.0], q.1, d);
        }
      }
      NextAgesIncreasing(s, newAge, newData);
    }
  }

  /** The entries after an update are still in increasing age order. */
  lemma NextAgesIncreasing(s: State, newAge: int, newData: Json)
    requires s.Versioned? && AgesIncreasing(s.diffs)
    requires forall e :: e in s.diffs ==> e.0 < s.age
    ensures AgesIncreasing(Next(s, newAge, newData).diffs)
  {
    var p := Pruned(s.diffs, newAge);
    KeptSubsequence(s.diffs, newAge, 1);
    AppendLater(p, (s.age, Unchanged));
    NextEntries(s, newAge, newData);
    var n := Next(s, newAge, newData).diffs;
    var k := p + [(s.age, Unchanged)];
    assert forall j :: 0 <= j < |n| ==> n[j].0 == k[j].0;
  }

  /** A reader whose age is still held receives a diff that, applied to
      the data it holds, gives the present data. */
  lemma RetainedDelivers(s: State, past: map<int, Json>, since: int)
    requires Delivers(s, past) && s.Versioned? && since < s.age
    requires exists e :: e in s.diffs && e.0 == since
    ensures since in past
    ensures var r := Answered(s, Some(since));
            && r.full == Some(false) && r.diff.Some?
            && ApplyDiff(past[since], r.diff.value) == s.data
  {
    var e :| e in s.diffs && e.0 == since;
    var i :| 0 <= i < |s.diffs| && s.diffs[i] == e;
    NewestAtMostSpec(s.diffs, since);
    var j := NewestAtMost(s.diffs, since).value;
    assert s.diffs[j] in s.diffs;
    assert i <= j;
  }

  /** The reversed loop of set_current_data that pops every entry younger
      than long_enough_to_keep and doubles it for every entry kept. */
  method Prune(diffs: seq<Entry>, newAge: int) returns (kept: seq<Entry>)
    ensures kept == Pruned(diffs, newAge)
  {
    kept := diffs;
    var threshold: nat := 1;
    var i := |kept|;
    assert diffs[..i] == diffs;
    while i > 0
      invariant 0 <= i <= |kept| && i <= |diffs|
      invariant kept[..i] == diffs[..i]
      invariant Pruned(diffs, newAge) == Kept(diffs[..i], newAge, threshold) + kept[i..]
      decreases i
    {
      i := i - 1;
      assert diffs[..i + 1][..i] == diffs[..i];
      if newAge - kept[i].0 < threshold {
        kept := kept[..i] + kept[i + 1..];
      } else {
        threshold := threshold * 2;
      }
    }
  }

  class DiffManager {
    var state: State

    /** `DiffManager()` */
    constructor ()
      ensures state == Unset
    {
      state := Unset;
    }

    /** `DiffManager(from_state=s)` */
    constructor FromState(s: State)
      ensures state == s
    {
      state := s;
    }

    /** get_state */
    function GetState(): State
      reads this
    {
      state
    }

    /** set_current_data: prune the entries, then push and merge the new
        diff. */
    method SetCurrentData(newAge: int, newData: Json)
      modifies this
      ensures state == Next(old(state), newAge, newData)
    {
      var diffs := if state.Versioned? then state.diffs else [];
      if diffs != [] {
        diffs := Prune(diffs, newAge);
      }
      if state.Versioned? {
        var d := ComputeDiff(state.data, newData);
        diffs := diffs + [(state.age, Unchanged)];
        diffs := seq(|diffs|, j requires 0 <= j < |diffs| => (diffs[j].0, MergeDiffs(diffs[j].1, d)));
      }
      state := Versioned(newAge, newData, diffs);
    }

    /** get_diff_to_present, scanning the entries newest-first. */
    method GetDiffToPresent(since: Option<int>) returns (r: Answer)
      ensures r == Answered(state, since)
    {
      if since.Some? {
        if state.Unset? {
          return Answer(None, None, None);
        }
        if since.value >= state.age {
          return Answer(Some(Unchanged), Some(false), Some(state.age));
        }
        var diffs := state.diffs;
        var i := |diffs|;
        assert diffs[..i] == diffs;
        while i > 0
          invariant 0 <= i <= |diffs|
          invariant NewestAtMost(diffs, since.value) == NewestAtMost(diffs[..i], since.value)
          decreases i
        {
          if since.value >= diffs[i - 1].0 {
            return Answer(Some(diffs[i - 1].1), Some(false), Some(state.age));
          }
          assert diffs[..i][..i - 1] == diffs[..i - 1];
          i := i - 1;
        }
      }
      match state
      case Unset => r := Answer(None, Some(true), None);
      case Versioned(age, data, _) => r := Answer(Some(data), Some(true), Some(age));
    }
  }
}
