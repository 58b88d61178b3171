/** The Database of hyperschedule/api/database.py: per scraper and term a
    DiffManager over the scraped courses, the term records themselves, and
    the most recent term of each scraper. */
module TermDatabase {
  import opened Util
  import opened JsonValue
  import opened DiffManagers

  /** A term record as posted by a scraper: its `termCode`, its
      `termSortKey` (a list of integers) and the record itself. */
  datatype Term = Term(code: string, sortKey: seq<int>, record: Json)

  /** The errors get_diff_to_present raises. */
  datatype DbError =
    | NotAvailable          // "data not available yet", code 503
    | NoSuchScraper         // "no such scraper"
    | NoSuchTerm(code: string)

  // ---------------------------------------------------------------
  // Python list comparison and max()
  // ---------------------------------------------------------------

  /** `a < b` on lists of integers: lexicographic, a proper prefix first. */
  predicate LexLess(a: seq<int>, b: seq<int>)
    decreases |a|
  {
    |b| > 0 && (|a| == 0 || a[0] < b[0] || (a[0] == b[0] && LexLess(a[1..], b[1..])))
  }

  lemma {:induction false} LexIrreflexive(a: seq<int>)
    ensures !LexLess(a, a)
    decreases |a|
  {
    if |a| > 0 {
      LexIrreflexive(a[1..]);
    }
  }

  lemma {:induction false} LexTransitive(a: seq<int>, b: seq<int>, c: seq<int>)
    requires LexLess(a, b) && LexLess(b, c)
    ensures LexLess(a, c)
    decreases |a|
  {
    if |a| > 0 && a[0] == b[0] && b[0] == c[0] {
      LexTransitive(a[1..], b[1..], c[1..]);
    }
  }

  lemma {:induction false} LexTotal(a: seq<int>, b: seq<int>)
    requires a != b
    ensures LexLess(a, b) || LexLess(b, a)
    decreases |a|
  {
    if |a| > 0 && |b| > 0 && a[0] == b[0] {
      assert a == [a[0]] + a[1..] && b == [b[0]] + b[1..];
      LexTotal(a[1..], b[1..]);
    }
  }

  /** The position `max(terms, key=termSortKey)` returns: a later term
      replaces the candidate only when its key is strictly greater. */
  function MaxIndex(ts: seq<Term>): (i: nat)
    requires |ts| > 0
    ensures i < |ts|
    decreases |ts|
  {
    if |ts| == 1 then 0
    else
      var m := MaxIndex(ts[..|ts| - 1]);
      if LexLess(ts[m].sortKey, ts[|ts| - 1].sortKey) then |ts| - 1 else m
  }

  /** The chosen term has a maximal key, and every term before it has a
      strictly smaller one: the first maximal term wins ties. */
  lemma {:induction false} MaxIndexSpec(ts: seq<Term>)
    requires |ts| > 0
    ensures forall j :: 0 <= j < |ts| ==> !LexLess(ts[MaxIndex(ts)].sortKey, ts[j].sortKey)
    ensures forall j :: 0 <= j < MaxIndex(ts) ==> LexLess(ts[j].sortKey, ts[MaxIndex(ts)].sortKey)
    decreases |ts|
  {
    if |ts| > 1 {
      var pre, last := ts[..|ts| - 1], ts[|ts| - 1];
      MaxIndexSpec(pre);
      var m := MaxIndex(pre);
      assert pre[m] == ts[m];
      if LexLess(ts[m].sortKey, last.sortKey) {
        assert MaxIndex(ts) == |ts| - 1;
        forall j | 0 <= j < |ts| - 1
          ensures LexLess(ts[j].sortKey, last.sortKey)
        {
          assert pre[j] == ts[j];
          if ts[j].sortKey != ts[m].sortKey {
            LexTotal(ts[j].sortKey, ts[m].sortKey);
            LexTransitive(ts[j].sortKey, ts[m].sortKey, last.sortKey);
          }
        }
        forall j | 0 <= j < |ts| ensures !LexLess(last.sortKey, ts[j].sortKey) {
          if j < |ts| - 1 && LexLess(last.sortKey, ts[j].sortKey) {
            LexTransitive(ts[j].sortKey, last.sortKey, ts[j].sortKey);
            LexIrreflexive(ts[j].sortKey);
          }
          if j == |ts| - 1 {
            LexIrreflexive(last.sortKey);
          }
        }
      } else {
        assert MaxIndex(ts) == m;
        forall j | 0 <= j < |ts| ensures !LexLess(ts[m].sortKey, ts[j].sortKey) {
          if j < |ts| - 1 {
            assert pre[j] == ts[j];
          }
        }
        forall j | 0 <= j < m ensures LexLess(ts[j].sortKey, ts[m].sortKey) {
          assert pre[j] == ts[j];
        }
      }
    } else {
      LexIrreflexive(ts[0].sortKey);
    }
  }

  // ---------------------------------------------------------------
  // The terms of one scraper: a dict keyed by term code, in insertion order
  // ---------------------------------------------------------------

  /** The term codes. */
  function CodeSet(ts: seq<Term>): set<string>
    decreases |ts|
  {
    if ts == [] then {} else {ts[0].code} + CodeSet(ts[1..])
  }

  /** Each code appears once, as in a dict. */
  predicate UniqueCodes(ts: seq<Term>)
    decreases |ts|
  {
    ts == [] || (ts[0].code !in CodeSet(ts[1..]) && UniqueCodes(ts[1..]))
  }

  /** `terms[t["termCode"]] = t`: an existing code keeps its position. */
  function Put(ts: seq<Term>, t: Term): seq<Term>
    decreases |ts|
  {
    if ts == [] then [t]
    else if ts[0].code == t.code then [t] + ts[1..]
    else [ts[0]] + Put(ts[1..], t)
  }

  /** `terms.get(code)` */
  function Find(ts: seq<Term>, code: string): Option<Term>
    decreases |ts|
  {
    if ts == [] then None
    else if ts[0].code == code then Some(ts[0])
    else Find(ts[1..], code)
  }

  /** After Put the code set grows by the new code, codes stay unique,
      the new code finds the new term and every other code what it found
      before. */
  lemma {:induction false} PutSpec(ts: seq<Term>, t: Term)
    requires UniqueCodes(ts)
    ensures UniqueCodes(Put(ts, t))
    ensures |Put(ts, t)| > 0
    ensures CodeSet(Put(ts, t)) == CodeSet(ts) + {t.code}
    ensures Find(Put(ts, t), t.code) == Some(t)
    ensures forall c :: c != t.code ==> Find(Put(ts, t), c) == Find(ts, c)
    decreases |ts|
  {
    if ts != [] {
      if ts[0].code != t.code {
        PutSpec(ts[1..], t);
        assert Put(ts, t)[1..] == Put(ts[1..], t);
      } else {
        assert Put(ts, t)[1..] == ts[1..];
        FindCodes(ts[1..], t.code);
      }
    }
  }

  /** A code is found exactly when it is among the codes, and it finds a
      term of that code. */
  lemma {:induction false} FindCodes(ts: seq<Term>, code: string)
    ensures Find(ts, code).Some? <==> code in CodeSet(ts)
    ensures Find(ts, code).Some? ==> Find(ts, code).value in ts && Find(ts, code).value.code == code
    decreases |ts|
  {
    if ts != [] {
      FindCodes(ts[1..], code);
    }
  }

  // ---------------------------------------------------------------
  // Invariants of the three dictionaries, on values
  // ---------------------------------------------------------------

  type Managers = map<string, map<string, DiffManager>>

  /** `diff_managers[s]`, created empty by the defaultdict. */
  function Row(ms: Managers, s: string): map<string, DiffManager>
  {
    if s in ms then ms[s] else map[]
  }

  /** `terms[s]`, created empty by the defaultdict. */
  function TermsOf(terms: map<string, seq<Term>>, s: string): seq<Term>
  {
    if s in terms then terms[s] else []
  }

  /** A term of scraper `s` that has a manager. */
  predicate Holds(ms: Managers, s: string, c: string)
  {
    s in ms && c in ms[s]
  }

  /** No DiffManager serves two terms. */
  ghost predicate Separate(ms: Managers)
  {
    forall s1, c1, s2, c2 {:trigger Holds(ms, s1, c1), Holds(ms, s2, c2)} ::
      (Holds(ms, s1, c1) && Holds(ms, s2, c2) && ms[s1][c1] == ms[s2][c2]) ==> s1 == s2 && c1 == c2
  }

  /** One scraper's entries agree: its terms have distinct codes, are not
      empty, are exactly the terms it has managers for, and its most
      recent term is their max. */
  ghost predicate RowShaped(row: map<string, DiffManager>, ts: seq<Term>, recent: Term)
  {
    && UniqueCodes(ts) && ts != []
    && row.Keys == CodeSet(ts)
    && recent == ts[MaxIndex(ts)]
  }

  /** A scraper `terms` has entries for. */
  predicate Known(terms: map<string, seq<Term>>, s: string)
  {
    s in terms
  }

  /** The dictionaries are filled together, scraper by scraper. */
  ghost predicate Shaped(ms: Managers, terms: map<string, seq<Term>>, recent: map<string, Term>)
  {
    && ms.Keys == terms.Keys == recent.Keys
    && forall s {:trigger Known(terms, s)} :: Known(terms, s) ==> RowShaped(ms[s], terms[s], recent[s])
  }

  /** Installing the manager of one term keeps managers apart, provided it
      is the one already there or a new one. */
  lemma InstallSeparate(ms: Managers, s: string, c: string, m: DiffManager)
    requires Separate(ms)
    requires (s in ms && c in ms[s] && ms[s][c] == m) || forall s', c' :: s' in ms && c' in ms[s'] ==> ms[s'][c'] != m
    ensures Separate(ms[s := Row(ms, s)[c := m]])
  {
    var ms' := ms[s := Row(ms, s)[c := m]];
    forall s1, c1, s2, c2 | Holds(ms', s1, c1) && Holds(ms', s2, c2) && ms'[s1][c1] == ms'[s2][c2]
      ensures s1 == s2 && c1 == c2
    {
      var new1, new2 := s1 == s && c1 == c, s2 == s && c2 == c;
      if s in ms && c in ms[s] {
        assert Holds(ms, s, c);
      }
      if !new1 {
        assert Holds(ms, s1, c1) && ms'[s1][c1] == ms[s1][c1];
      }
      if !new2 {
        assert Holds(ms, s2, c2) && ms'[s2][c2] == ms[s2][c2];
      }
    }
  }

  /** Storing a term and its manager in one scraper's entries. */
  lemma InstallRow(row: map<string, DiffManager>, ts: seq<Term>, recent: Term, t: Term, m: DiffManager)
    requires (row == map[] && ts == []) || RowShaped(row, ts, recent)
    ensures RowShaped(row[t.code := m], Put(ts, t), Put(ts, t)[MaxIndex(Put(ts, t))])
  {
    PutSpec(ts, t);
  }

  /** Replacing one scraper's entries by agreeing ones keeps the
      dictionaries filled together. */
  lemma ShapedUpdate(ms: Managers, terms: map<string, seq<Term>>, recent: map<string, Term>, s: string,
                     row: map<string, DiffManager>, ts: seq<Term>, r: Term)
    requires Shaped(ms, terms, recent)
    requires RowShaped(row, ts, r)
    ensures Shaped(ms[s := row], terms[s := ts], recent[s := r])
  {
    var ms', terms', recent' := ms[s := row], terms[s := ts], recent[s := r];
    assert ms'.Keys == terms'.Keys == recent'.Keys;
    forall s' | Known(terms', s') ensures RowShaped(ms'[s'], terms'[s'], recent'[s']) {
      if s' != s {
        assert Known(terms, s');
        assert ms'[s'] == ms[s'] && terms'[s'] == terms[s'] && recent'[s'] == recent[s'];
      }
    }
  }

  /** set_current_data keeps the dictionaries filled together. */
  lemma InstallShaped(ms: Managers, terms: map<string, seq<Term>>, recent: map<string, Term>,
                      s: string, t: Term, m: DiffManager)
    requires Shaped(ms, terms, recent)
    ensures var ts := Put(TermsOf(terms, s), t);
            Shaped(ms[s := Row(ms, s)[t.code := m]], terms[s := ts], recent[s := ts[MaxIndex(ts)]])
  {
    var ts := Put(TermsOf(terms, s), t);
    if s in terms {
      assert Known(terms, s);
      InstallRow(ms[s], terms[s], recent[s], t, m);
    } else {
      InstallRow(map[], [], t, t, m);
    }
    ShapedUpdate(ms, terms, recent, s, Row(ms, s)[t.code := m], ts, ts[MaxIndex(ts)]);
  }

  /** The terms of any scraper have distinct codes. */
  lemma ShapedUnique(ms: Managers, terms: map<string, seq<Term>>, recent: map<string, Term>, s: string)
    requires Shaped(ms, terms, recent)
    ensures UniqueCodes(TermsOf(terms, s))
  {
    if s in terms {
      assert Known(terms, s);
    }
  }

  /** The entries of a scraper the database knows. */
  lemma ShapedRow(ms: Managers, terms: map<string, seq<Term>>, recent: map<string, Term>, s: string)
    requires Shaped(ms, terms, recent) && s in recent
    ensures s in ms && s in terms && RowShaped(ms[s], terms[s], recent[s])
  {
    assert Known(terms, s);
  }

  /** Everything set_current_data does to the three dictionaries, for a
      manager that is the one already there or a new one: they stay
      filled together, the term is found, and every other term keeps its
      manager. */
  lemma Install(ms: Managers, terms: map<string, seq<Term>>, recent: map<string, Term>,
                s: string, t: Term, m: DiffManager)
    requires Separate(ms) && Shaped(ms, terms, recent)
    requires (s in ms && t.code in ms[s] && ms[s][t.code] == m) || forall s', c' :: s' in ms && c' in ms[s'] ==> ms[s'][c'] != m
    ensures var ms', ts := ms[s := Row(ms, s)[t.code := m]], Put(TermsOf(terms, s), t);
            && Separate(ms') && Shaped(ms', terms[s := ts], recent[s := ts[MaxIndex(ts)]])
            && Find(ts, t.code) == Some(t)
            && forall s', c' :: s' in ms && c' in ms[s'] && (s' != s || c' != t.code) ==>
                 ms[s'][c'] != m && s' in ms' && c' in ms'[s'] && ms'[s'][c'] == ms[s'][c']
  {
    InstallSeparate(ms, s, t.code, m);
    InstallShaped(ms, terms, recent, s, t, m);
    ShapedUnique(ms, terms, recent, s);
    PutSpec(TermsOf(terms, s), t);
    var ms' := ms[s := Row(ms, s)[t.code := m]];
    forall s', c' | s' in ms && c' in ms[s'] && (s' != s || c' != t.code)
      ensures ms[s'][c'] != m && s' in ms' && c' in ms'[s'] && ms'[s'][c'] == ms[s'][c']
    {
      assert Holds(ms, s', c');
      if s in ms && t.code in ms[s] {
        assert Holds(ms, s, t.code);
      }
    }
  }

  class Database {
    /** `diff_managers[scraper][term_code]` */
    var managers: Managers
    /** `terms[scraper]`, a dict from term code to term record */
    var terms: map<string, seq<Term>>
    /** `most_recent_terms[scraper]` */
    var mostRecent: map<string, Term>

    /** Every DiffManager the database holds. */
    ghost function Held(): set<DiffManager>
      reads this
    {
      set s, c | s in managers && c in managers[s] :: managers[s][c]
    }

    ghost predicate Valid()
      reads this
    {
      Separate(managers) && Shaped(managers, terms, mostRecent)
    }

    /** `Database()`: empty; reading from disk is not modelled. */
    constructor ()
      ensures Valid() && managers == map[] && terms == map[] && mostRecent == map[]
    {
      managers, terms, mostRecent := map[], map[], map[];
    }

    /** The bookkeeping of set_current_data: the term's manager, created
        when the term is new, and the term and most recent term stored. */
    method Register(scraper: string, term: Term) returns (m: DiffManager)
      requires Valid()
      modifies this
      ensures Valid()
      ensures terms == old(terms)[scraper := Put(TermsOf(old(terms), scraper), term)]
      ensures Find(terms[scraper], term.code) == Some(term)
      ensures mostRecent == old(mostRecent)[scraper := terms[scraper][MaxIndex(terms[scraper])]]
      ensures managers == old(managers)[scraper := Row(old(managers), scraper)[term.code := m]]
      ensures if term.code in Row(old(managers), scraper) then m == old(managers)[scraper][term.code]
              else fresh(m) && m.state == Unset
      ensures forall s, c :: s in old(managers) && c in old(managers)[s] && (s != scraper || c != term.code) ==>
                old(managers)[s][c] != m && s in managers && c in managers[s] && managers[s][c] == old(managers)[s][c]
    {
      var row := Row(managers, scraper);
      if term.code in row {
        m := row[term.code];
      } else {
        m := new DiffManager();
      }
      Install(managers, terms, mostRecent, scraper, term, m);
      var ts := Put(TermsOf(terms, scraper), term);
      managers := managers[scraper := row[term.code := m]];
      terms := terms[scraper := ts];
      mostRecent := mostRecent[scraper := ts[MaxIndex(ts)]];
    }

    /** set_current_data(scraper_id, term_data, courses), with the
        clock's reading passed in as `timestamp`. */
    method SetCurrentData(scraper: string, term: Term, courses: Json, timestamp: int)
      requires Valid()
      modifies this, Held()
      ensures Valid()
      ensures terms == old(terms)[scraper := Put(TermsOf(old(terms), scraper), term)]
      ensures Find(terms[scraper], term.code) == Some(term)
      ensures mostRecent == old(mostRecent)[scraper := terms[scraper][MaxIndex(terms[scraper])]]
      ensures managers.Keys == old(managers).Keys + {scraper}
      ensures term.code in managers[scraper]
      ensures managers[scraper][term.code].state
              == Next(if term.code in Row(old(managers), scraper)
                      then old(managers[scraper][term.code].state) else Unset, timestamp, courses)
      ensures forall s, c :: s in old(managers) && c in old(managers)[s] && (s != scraper || c != term.code) ==>
                s in managers && c in managers[s] && managers[s][c] == old(managers)[s][c]
                && managers[s][c].state == old(managers[s][c].state)
    {
      var m := Register(scraper, term);
      label Registered:
      m.SetCurrentData(timestamp, courses);
      forall s, c | s in old(managers) && c in old(managers)[s] && (s != scraper || c != term.code)
        ensures old(managers)[s][c].state == old(managers[s][c].state)
      {
        var other := old(managers)[s][c];
        assert other != m;
        assert other.state == old@Registered(other.state);
      }
    }

    /** _get_diff_manager */
    method GetDiffManager(scraper: string, code: string) returns (r: Result<DiffManager, DbError>)
      ensures r.Err? <==> scraper !in managers || code !in managers[scraper]
      ensures r.Err? ==> r.error == if scraper !in managers then NoSuchScraper else NoSuchTerm(code)
      ensures r.Ok? ==> r.value == managers[scraper][code]
    {
      if scraper !in managers {
        return Err(NoSuchScraper);
      }
      if code !in managers[scraper] {
        return Err(NoSuchTerm(code));
      }
      r := Ok(managers[scraper][code]);
    }

    /** get_diff_to_present(scraper_id, since, current_term_code,
        requested_term_code); None stands for `Unset`. */
    method GetDiffToPresent(scraper: string, since: Option<int>, current: Option<string>, requested: Option<string>)
      returns (r: Result<(Answer, Term), DbError>)
      requires Valid()
      ensures r.Err? && r.error == NotAvailable <==> scraper !in mostRecent
      ensures r.Err? ==> r.error != NoSuchScraper
      ensures scraper in mostRecent ==>
                var code := if requested.Some? then requested.value else mostRecent[scraper].code;
                && (r.Err? <==> code !in managers[scraper])
                && (r.Err? ==> r.error == NoSuchTerm(code))
                && (r.Ok? ==> && Some(r.value.1) == Find(terms[scraper], code)
                              && r.value.0 == Answered(managers[scraper][code].state,
                                                       if current == Some(code) then since else None))
      ensures r.Ok? && current != Some(r.value.1.code) ==> r.value.0.full == Some(true)
    {
      if scraper !in mostRecent {
        return Err(NotAvailable);
      }
      var code := if requested.Some? then requested.value else mostRecent[scraper].code;
      var effective := if current == Some(code) then since else None;
      var m := GetDiffManager(scraper, code);
      if m.Err? {
        return Err(m.error);
      }
      var answer := m.value.GetDiffToPresent(effective);
      if current != Some(code) {
        assert answer.full == Some(true) by {
          match m.value.state
          case Unset =>
          case Versioned(_, _, _) =>
        }
      }
      ShapedRow(managers, terms, mostRecent, scraper);
      FindCodes(terms[scraper], code);
      r := Ok((answer, Find(terms[scraper], code).value));
    }
  }
}
