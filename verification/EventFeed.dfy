/**
 The durable event feed, backend/app/api/events.py: source rows without a log row are
 backfilled into an append-only log, and clients replay the log from a cursor.
 `P` is the content of a source row; one `_events` call is one atomic step.
 */
module EventFeed {
  import opened Wrappers
  import opened Sorting

  datatype Ref = Ref(kind: string, id: string)

  datatype Source<P> = Source(ref: Ref, createdAt: int, content: P)

  datatype LogRow = LogRow(sequence: nat, ref: Ref, createdAt: int)

  datatype Event<P> = Event(sequence: nat, ref: Ref, content: P)

  const KINDS: seq<string> := ["job", "audit", "usage"]

  // ---------------------------------------------------------------- tables

  predicate Logged(log: seq<LogRow>, ref: Ref) {
    exists i :: 0 <= i < |log| && log[i].ref == ref
  }

  /** `SELECT ... WHERE id = :id` on the table of the kind. */
  function Find<P>(sources: seq<Source<P>>, ref: Ref): Option<Source<P>> {
    if sources == [] then None
    else if sources[0].ref == ref then Some(sources[0])
    else Find(sources[1..], ref)
  }

  ghost predicate RefsDistinct<P>(sources: seq<Source<P>>) {
    forall i, j :: 0 <= i < j < |sources| ==> sources[i].ref != sources[j].ref
  }

  predicate HasSource<P>(sources: seq<Source<P>>, ref: Ref) {
    exists i :: 0 <= i < |sources| && sources[i].ref == ref
  }

  predicate KindsKnown<P>(sources: seq<Source<P>>) {
    forall i :: 0 <= i < |sources| ==> sources[i].ref.kind in KINDS
  }

  /** Sequence ids grow along the log. */
  ghost predicate Ascending(log: seq<LogRow>) {
    forall i, j :: 0 <= i < j < |log| ==> log[i].sequence < log[j].sequence
  }

  ghost predicate LoggedOnce(log: seq<LogRow>) {
    forall i, j :: 0 <= i < j < |log| ==> log[i].ref != log[j].ref
  }

  lemma {:induction false} FindIsSource<P>(sources: seq<Source<P>>, ref: Ref)
    ensures Find(sources, ref).Some? <==> exists i :: 0 <= i < |sources| && sources[i].ref == ref
    ensures Find(sources, ref).Some? ==> Find(sources, ref).value in sources && Find(sources, ref).value.ref == ref
  {
    if sources != [] && sources[0].ref != ref {
      FindIsSource(sources[1..], ref);
      if Find(sources[1..], ref).Some? {
        var i :| 0 <= i < |sources[1..]| && sources[1..][i].ref == ref;
        assert sources[i + 1].ref == ref;
      }
      if i :| 0 <= i < |sources| && sources[i].ref == ref {
        assert sources[1..][i - 1].ref == ref;
      }
    }
  }

  lemma {:induction false} FindThe<P>(sources: seq<Source<P>>, i: nat)
    requires RefsDistinct(sources) && i < |sources|
    ensures Find(sources, sources[i].ref) == Some(sources[i])
  {
    if i > 0 {
      FindThe(sources[1..], i - 1);
    }
  }

  // ---------------------------------------------------------------- backfill

  datatype Candidate = Candidate(createdAt: int, ref: Ref)

  /** ORDER: created_at, then entity type, then id. */
  predicate CandidateLeq(a: Candidate, b: Candidate) {
    if a.createdAt != b.createdAt then a.createdAt < b.createdAt
    else if a.ref.kind != b.ref.kind then StrLeq(a.ref.kind, b.ref.kind)
    else StrLeq(a.ref.id, b.ref.id)
  }

  lemma CandidateOrder()
    ensures TotalPreorder(CandidateLeq) && Antisymmetric(CandidateLeq)
  {
    forall a, b
      ensures CandidateLeq(a, b) || CandidateLeq(b, a)
      ensures CandidateLeq(a, b) && CandidateLeq(b, a) ==> a == b
    {
      StrLeqTotal(a.ref.kind, b.ref.kind);
      StrLeqTotal(a.ref.id, b.ref.id);
    }
    forall a, b, c | CandidateLeq(a, b) && CandidateLeq(b, c) ensures CandidateLeq(a, c) {
      CandidateTransitive(a, b, c);
    }
  }

  lemma CandidateTransitive(a: Candidate, b: Candidate, c: Candidate)
    requires CandidateLeq(a, b) && CandidateLeq(b, c)
    ensures CandidateLeq(a, c)
  {
    StrLeqTotal(a.ref.kind, b.ref.kind);
    StrLeqTotal(b.ref.kind, c.ref.kind);
    if StrLeq(a.ref.kind, b.ref.kind) && StrLeq(b.ref.kind, c.ref.kind) {
      StrLeqTransitive(a.ref.kind, b.ref.kind, c.ref.kind);
    }
    if StrLeq(a.ref.id, b.ref.id) && StrLeq(b.ref.id, c.ref.id) {
      StrLeqTransitive(a.ref.id, b.ref.id, c.ref.id);
    }
  }

  /** The anti-join for one source table. */
  function Unlogged<P>(sources: seq<Source<P>>, log: seq<LogRow>, kind: string): seq<Candidate> {
    if sources == [] then []
    else
      var last := sources[|sources| - 1];
      Unlogged(sources[..|sources| - 1], log, kind)
      + if last.ref.kind == kind && !Logged(log, last.ref) then [Candidate(last.createdAt, last.ref)] else []
  }

  /** `_unsynced_candidates`: the three tables one after another. */
  function Candidates<P>(sources: seq<Source<P>>, log: seq<LogRow>): seq<Candidate> {
    Unlogged(sources, log, "job") + Unlogged(sources, log, "audit") + Unlogged(sources, log, "usage")
  }

  /** The id SQLite gives the next row. */
  function NextSequence(log: seq<LogRow>): nat {
    if log == [] then 1 else log[|log| - 1].sequence + 1
  }

  function AppendAll(log: seq<LogRow>, candidates: seq<Candidate>): seq<LogRow> {
    if candidates == [] then log
    else
      var n := |candidates| - 1;
      var before := AppendAll(log, candidates[..n]);
      before + [LogRow(NextSequence(before), candidates[n].ref, candidates[n].createdAt)]
  }

  /** `_sync_event_log` as a function. */
  function Synced<P>(sources: seq<Source<P>>, log: seq<LogRow>): seq<LogRow> {
    AppendAll(log, SortBy(CandidateLeq, Candidates(sources, log)))
  }

  lemma {:induction false} UnloggedHolds<P>(sources: seq<Source<P>>, log: seq<LogRow>, kind: string, c: Candidate)
    ensures c in Unlogged(sources, log, kind) <==>
            && c.ref.kind == kind && !Logged(log, c.ref)
            && exists i :: 0 <= i < |sources| && sources[i].ref == c.ref && sources[i].createdAt == c.createdAt
  {
    if sources != [] {
      var n := |sources| - 1;
      UnloggedHolds(sources[..n], log, kind, c);
      if i :| 0 <= i < |sources[..n]| && sources[..n][i].ref == c.ref && sources[..n][i].createdAt == c.createdAt {
        assert sources[i].ref == c.ref && sources[i].createdAt == c.createdAt;
      }
      if i :| 0 <= i < |sources| && sources[i].ref == c.ref && sources[i].createdAt == c.createdAt {
        if i < n { assert sources[..n][i].ref == c.ref && sources[..n][i].createdAt == c.createdAt; }
      }
    }
  }

  ghost predicate CandidatesDistinct(cs: seq<Candidate>) {
    forall i, j :: 0 <= i < j < |cs| ==> cs[i].ref != cs[j].ref
  }

  lemma {:induction false} UnloggedDistinct<P>(sources: seq<Source<P>>, log: seq<LogRow>, kind: string)
    requires RefsDistinct(sources)
    ensures CandidatesDistinct(Unlogged(sources, log, kind))
  {
    if sources != [] {
      var n := |sources| - 1;
      var init := sources[..n];
      UnloggedDistinct(init, log, kind);
      var cs := Unlogged(init, log, kind);
      forall i | 0 <= i < |cs| ensures cs[i].ref != sources[n].ref {
        UnloggedHolds(init, log, kind, cs[i]);
        assert cs[i] in cs;
        var k :| 0 <= k < |init| && init[k].ref == cs[i].ref && init[k].createdAt == cs[i].createdAt;
        assert sources[k].ref != sources[n].ref;
      }
    }
  }

  lemma CandidatesHold<P>(sources: seq<Source<P>>, log: seq<LogRow>)
    requires RefsDistinct(sources) && KindsKnown(sources)
    ensures CandidatesDistinct(Candidates(sources, log))
    ensures forall c :: c in Candidates(sources, log) ==> !Logged(log, c.ref)
    ensures forall i :: 0 <= i < |sources| && !Logged(log, sources[i].ref) ==>
              Candidate(sources[i].createdAt, sources[i].ref) in Candidates(sources, log)
    ensures forall c :: c in Candidates(sources, log) ==> exists i :: 0 <= i < |sources| && sources[i].ref == c.ref
  {
    var a, b, c := Unlogged(sources, log, "job"), Unlogged(sources, log, "audit"), Unlogged(sources, log, "usage");
    UnloggedDistinct(sources, log, "job");
    UnloggedDistinct(sources, log, "audit");
    UnloggedDistinct(sources, log, "usage");
    forall x: Candidate
      ensures x in a ==> x.ref.kind == "job" && !Logged(log, x.ref) && HasSource(sources, x.ref)
      ensures x in b ==> x.ref.kind == "audit" && !Logged(log, x.ref) && HasSource(sources, x.ref)
      ensures x in c ==> x.ref.kind == "usage" && !Logged(log, x.ref) && HasSource(sources, x.ref)
    {
      UnloggedHolds(sources, log, "job", x);
      UnloggedHolds(sources, log, "audit", x);
      UnloggedHolds(sources, log, "usage", x);
    }
    KindsDiffer(a, b, c);
    forall i | 0 <= i < |sources| && !Logged(log, sources[i].ref)
      ensures Candidate(sources[i].createdAt, sources[i].ref) in Candidates(sources, log)
    {
      UnloggedHolds(sources, log, sources[i].ref.kind, Candidate(sources[i].createdAt, sources[i].ref));
    }
  }

  lemma KindsDiffer(a: seq<Candidate>, b: seq<Candidate>, c: seq<Candidate>)
    requires CandidatesDistinct(a) && CandidatesDistinct(b) && CandidatesDistinct(c)
    requires (forall x :: x in a ==> x.ref.kind == "job") && (forall x :: x in b ==> x.ref.kind == "audit")
    requires forall x :: x in c ==> x.ref.kind == "usage"
    ensures CandidatesDistinct(a + b + c)
  {
    assert "job"[0] == 'j' && "audit"[0] == 'a' && "usage"[0] == 'u';
  }

  lemma {:induction false} AppendAllShape(log: seq<LogRow>, cs: seq<Candidate>)
    requires Ascending(log)
    ensures var r := AppendAll(log, cs);
            && |r| == |log| + |cs| && r[..|log|] == log && Ascending(r)
            && forall i :: 0 <= i < |cs| ==> r[|log| + i].ref == cs[i].ref && r[|log| + i].createdAt == cs[i].createdAt
  {
    if cs != [] {
      var n := |cs| - 1;
      AppendAllShape(log, cs[..n]);
      var before := AppendAll(log, cs[..n]);
      var r := AppendAll(log, cs);
      assert r[..|log|] == before[..|log|];
      forall i | 0 <= i < |cs| ensures r[|log| + i].ref == cs[i].ref && r[|log| + i].createdAt == cs[i].createdAt {
        if i < n { assert r[|log| + i] == before[|log| + i]; }
      }
    }
  }

  /** From this row on, each id is the one after that of the row before; the first of all is 1. */
  ghost predicate Consecutive(log: seq<LogRow>, from: nat) {
    forall i :: from <= i < |log| ==> log[i].sequence == if i == 0 then 1 else log[i - 1].sequence + 1
  }

  lemma {:induction false} AppendsConsecutive(log: seq<LogRow>, cs: seq<Candidate>)
    ensures Consecutive(AppendAll(log, cs), |log|)
  {
    if cs != [] {
      AppendsConsecutive(log, cs[..|cs| - 1]);
    }
  }

  lemma {:induction false} InsertDistinct(ys: seq<Candidate>, x: Candidate)
    requires CandidatesDistinct(ys) && forall i :: 0 <= i < |ys| ==> ys[i].ref != x.ref
    ensures CandidatesDistinct(Insert(CandidateLeq, ys, x))
  {
    if ys != [] && !CandidateLeq(ys[|ys| - 1], x) {
      var n := |ys| - 1;
      var r := Insert(CandidateLeq, ys[..n], x);
      InsertDistinct(ys[..n], x);
      forall i | 0 <= i < |r| ensures r[i].ref != ys[n].ref {
        InsertMembers(CandidateLeq, ys[..n], x, i);
      }
    }
  }

  lemma {:induction false} SortDistinct(cs: seq<Candidate>)
    requires CandidatesDistinct(cs)
    ensures CandidatesDistinct(SortBy(CandidateLeq, cs))
  {
    if cs != [] {
      var n := |cs| - 1;
      var sorted := SortBy(CandidateLeq, cs[..n]);
      SortDistinct(cs[..n]);
      CandidateOrder();
      SortBySorts(CandidateLeq, cs[..n]);
      forall i | 0 <= i < |sorted| ensures sorted[i].ref != cs[n].ref {
        assert sorted[i] in multiset(sorted);
        var k :| 0 <= k < n && cs[..n][k] == sorted[i];
        assert cs[k].ref != cs[n].ref;
      }
      InsertDistinct(sorted, cs[n]);
    }
  }

  lemma SortedCandidates<P>(sources: seq<Source<P>>, log: seq<LogRow>)
    requires RefsDistinct(sources) && KindsKnown(sources)
    ensures var cs := SortBy(CandidateLeq, Candidates(sources, log));
            && Sorted(CandidateLeq, cs) && CandidatesDistinct(cs)
            && (forall c :: c in cs <==> c in Candidates(sources, log))
  {
    CandidatesHold(sources, log);
    SortDistinct(Candidates(sources, log));
    CandidateOrder();
    SortBySorts(CandidateLeq, Candidates(sources, log));
    var cs := SortBy(CandidateLeq, Candidates(sources, log));
    forall c ensures c in cs <==> c in Candidates(sources, log) {
      assert c in cs <==> c in multiset(cs);
      assert c in Candidates(sources, log) <==> c in multiset(Candidates(sources, log));
    }
  }

  /** The older row first; of rows of one age, first by entity type and then by id, as texts compare. */
  predicate ComesBefore(a: LogRow, b: LogRow) {
    || a.createdAt < b.createdAt
    || (a.createdAt == b.createdAt && Precedes(a.ref.kind, b.ref.kind))
    || (a.createdAt == b.createdAt && a.ref.kind == b.ref.kind && Precedes(a.ref.id, b.ref.id))
  }

  ghost predicate AppendedInOrder(log: seq<LogRow>, from: nat) {
    forall i, j :: from <= i < j < |log| ==> ComesBefore(log[i], log[j])
  }

  predicate DatedAsSource<P>(sources: seq<Source<P>>, row: LogRow) {
    exists i :: 0 <= i < |sources| && sources[i].ref == row.ref && sources[i].createdAt == row.createdAt
  }

  /** Every appended row names a source row, with the time that row was created. */
  ghost predicate AppendedAreDated<P>(sources: seq<Source<P>>, log: seq<LogRow>, from: nat) {
    forall i :: from <= i < |log| ==> DatedAsSource(sources, log[i])
  }

  ghost predicate AllLogged<P>(sources: seq<Source<P>>, log: seq<LogRow>) {
    forall i :: 0 <= i < |sources| ==> Logged(log, sources[i].ref)
  }

  ghost predicate LogFromSources<P>(sources: seq<Source<P>>, log: seq<LogRow>) {
    forall i :: 0 <= i < |log| ==> Find(sources, log[i].ref).Some?
  }

  /**
   One sync leaves every source row with a log row, changes no existing row, and appends
   the missing ones, oldest first, with growing ids, each once and dated as it was created.
   */
  lemma SyncBackfills<P>(sources: seq<Source<P>>, log: seq<LogRow>)
    requires RefsDistinct(sources) && KindsKnown(sources) && Ascending(log) && LoggedOnce(log)
    ensures var r := Synced(sources, log);
            && |log| <= |r| && r[..|log|] == log
            && AllLogged(sources, r) && AppendedInOrder(r, |log|) && AppendedAreDated(sources, r, |log|)
            && Ascending(r) && Consecutive(r, |log|) && LoggedOnce(r)
    ensures LogFromSources(sources, log) ==> LogFromSources(sources, Synced(sources, log))
  {
    var cs := SortBy(CandidateLeq, Candidates(sources, log));
    var r := Synced(sources, log);
    SortedCandidates(sources, log);
    CandidatesHold(sources, log);
    AppendAllShape(log, cs);
    AppendsConsecutive(log, cs);
    AppendedAll(sources, log, cs, r);
    AppendedOnce(log, cs, r);
    AppendedSorted(log, cs, r);
    AppendedDated(sources, log, cs, r);
    if LogFromSources(sources, log) { AppendedFromSources(sources, log, cs, r); }
  }

  /** What AppendAllShape says, as a hypothesis. */
  ghost predicate Extends(log: seq<LogRow>, cs: seq<Candidate>, r: seq<LogRow>) {
    && |r| == |log| + |cs| && r[..|log|] == log
    && forall i :: 0 <= i < |cs| ==> r[|log| + i].ref == cs[i].ref && r[|log| + i].createdAt == cs[i].createdAt
  }

  lemma AppendedAll<P>(sources: seq<Source<P>>, log: seq<LogRow>, cs: seq<Candidate>, r: seq<LogRow>)
    requires Extends(log, cs, r)
    requires forall i :: 0 <= i < |sources| && !Logged(log, sources[i].ref) ==>
               Candidate(sources[i].createdAt, sources[i].ref) in cs
    ensures AllLogged(sources, r)
  {
    forall i | 0 <= i < |sources| ensures Logged(r, sources[i].ref) {
      if Logged(log, sources[i].ref) {
        var k :| 0 <= k < |log| && log[k].ref == sources[i].ref;
        assert r[..|log|][k] == log[k];
        assert r[k].ref == sources[i].ref;
      } else {
        assert Candidate(sources[i].createdAt, sources[i].ref) in cs;
        var k :| 0 <= k < |cs| && cs[k] == Candidate(sources[i].createdAt, sources[i].ref);
        assert r[|log| + k].ref == sources[i].ref;
      }
    }
  }

  lemma AppendedOnce(log: seq<LogRow>, cs: seq<Candidate>, r: seq<LogRow>)
    requires Extends(log, cs, r) && LoggedOnce(log) && CandidatesDistinct(cs)
    requires forall i :: 0 <= i < |cs| ==> !Logged(log, cs[i].ref)
    ensures LoggedOnce(r)
  {
    forall i, j | 0 <= i < j < |r| ensures r[i].ref != r[j].ref {
      if i < |log| { assert r[i] == r[..|log|][i] == log[i]; }
      if j < |log| { assert r[j] == r[..|log|][j] == log[j]; }
      if j >= |log| {
        assert r[j].ref == cs[j - |log|].ref;
        if i >= |log| { assert r[i].ref == cs[i - |log|].ref; }
      }
    }
  }

  lemma AppendedSorted(log: seq<LogRow>, cs: seq<Candidate>, r: seq<LogRow>)
    requires Extends(log, cs, r) && Sorted(CandidateLeq, cs) && LoggedOnce(r)
    ensures AppendedInOrder(r, |log|)
  {
    forall i, j | |log| <= i < j < |r| ensures ComesBefore(r[i], r[j]) {
      var a, b := i - |log|, j - |log|;
      assert r[|log| + a].ref == cs[a].ref && r[|log| + b].ref == cs[b].ref;
      assert CandidateLeq(cs[a], cs[b]);
      assert r[i].ref != r[j].ref;
      StrLeqIff(r[i].ref.kind, r[j].ref.kind);
      StrLeqIff(r[i].ref.id, r[j].ref.id);
    }
  }

  lemma AppendedDated<P>(sources: seq<Source<P>>, log: seq<LogRow>, cs: seq<Candidate>, r: seq<LogRow>)
    requires Extends(log, cs, r) && forall c :: c in cs ==> c in Candidates(sources, log)
    ensures AppendedAreDated(sources, r, |log|)
  {
    forall i | |log| <= i < |r| ensures DatedAsSource(sources, r[i]) {
      var c := cs[i - |log|];
      assert r[|log| + (i - |log|)].ref == c.ref && c in cs;
      UnloggedHolds(sources, log, "job", c);
      UnloggedHolds(sources, log, "audit", c);
      UnloggedHolds(sources, log, "usage", c);
    }
  }

  lemma AppendedFromSources<P>(sources: seq<Source<P>>, log: seq<LogRow>, cs: seq<Candidate>, r: seq<LogRow>)
    requires Extends(log, cs, r) && LogFromSources(sources, log)
    requires forall c :: c in cs ==> exists i :: 0 <= i < |sources| && sources[i].ref == c.ref
    ensures LogFromSources(sources, r)
  {
    forall i | 0 <= i < |r| ensures Find(sources, r[i].ref).Some? {
      if i < |log| {
        assert r[i] == r[..|log|][i] == log[i];
      } else {
        assert r[|log| + (i - |log|)].ref == cs[i - |log|].ref;
        FindIsSource(sources, r[i].ref);
        assert cs[i - |log|] in cs;
      }
    }
  }

  /** Repeating a sync adds nothing. */
  lemma SyncTwice<P>(sources: seq<Source<P>>, log: seq<LogRow>)
    requires RefsDistinct(sources) && KindsKnown(sources) && Ascending(log) && LoggedOnce(log)
    ensures Synced(sources, Synced(sources, log)) == Synced(sources, log)
  {
    SyncBackfills(sources, log);
    NothingMissing(sources, Synced(sources, log));
  }

  lemma NothingMissing<P>(sources: seq<Source<P>>, log: seq<LogRow>)
    requires AllLogged(sources, log)
    ensures Candidates(sources, log) == [] && Synced(sources, log) == log
  {
    NothingUnlogged(sources, log, "job");
    NothingUnlogged(sources, log, "audit");
    NothingUnlogged(sources, log, "usage");
  }

  lemma {:induction false} NothingUnlogged<P>(sources: seq<Source<P>>, log: seq<LogRow>, kind: string)
    requires AllLogged(sources, log)
    ensures Unlogged(sources, log, kind) == []
  {
    if sources != [] {
      NothingUnlogged(sources[..|sources| - 1], log, kind);
      assert Logged(log, sources[|sources| - 1].ref);
    }
  }

  // ---------------------------------------------------------------- replay

  predicate After(row: LogRow, after: Option<int>) {
    after.None? || row.sequence > after.value
  }

  /** `WHERE sequence_id > :after`, in ascending order. */
  function Slice(log: seq<LogRow>, after: Option<int>): seq<LogRow> {
    if log == [] then []
    else
      var last := log[|log| - 1];
      Slice(log[..|log| - 1], after) + if After(last, after) then [last] else []
  }

  function RowEvent<P>(sources: seq<Source<P>>, row: LogRow): seq<Event<P>> {
    if row.ref.kind in KINDS && Find(sources, row.ref).Some?
    then [Event(row.sequence, row.ref, Find(sources, row.ref).value.content)] else []
  }

  /** The simple form: one lookup per row; a row whose source is gone, or of an unknown kind, is dropped. */
  function PerRow<P>(sources: seq<Source<P>>, rows: seq<LogRow>): seq<Event<P>> {
    if rows == [] then []
    else PerRow(sources, rows[..|rows| - 1]) + RowEvent(sources, rows[|rows| - 1])
  }

  /** `_events` */
  function Replay<P>(sources: seq<Source<P>>, log: seq<LogRow>, after: Option<int>): seq<Event<P>> {
    PerRow(sources, Slice(Synced(sources, log), after))
  }

  predicate KindOccurs(rows: seq<LogRow>, kind: string) {
    exists i :: 0 <= i < |rows| && rows[i].ref.kind == kind
  }

  predicate InSlice(log: seq<LogRow>, ref: Ref, after: Option<int>) {
    exists i :: 0 <= i < |log| && log[i].ref == ref && After(log[i], after)
  }

  /** `_load_entities`: the rows of one table that events of the slice refer to, in one statement. */
  function Loaded<P>(sources: seq<Source<P>>, log: seq<LogRow>, kind: string, after: Option<int>): seq<Source<P>> {
    if sources == [] then []
    else
      var last := sources[|sources| - 1];
      Loaded(sources[..|sources| - 1], log, kind, after)
      + if last.ref.kind == kind && InSlice(log, last.ref, after) then [last] else []
  }

  lemma {:induction false} LoadedHolds<P>(sources: seq<Source<P>>, log: seq<LogRow>, kind: string,
                                          after: Option<int>, s: Source<P>)
    ensures s in Loaded(sources, log, kind, after) <==> s in sources && s.ref.kind == kind && InSlice(log, s.ref, after)
  {
    if sources != [] {
      LoadedHolds(sources[..|sources| - 1], log, kind, after, s);
      assert sources == sources[..|sources| - 1] + [sources[|sources| - 1]];
    }
  }

  lemma {:induction false} SliceHolds(log: seq<LogRow>, after: Option<int>, row: LogRow)
    ensures row in Slice(log, after) <==> row in log && After(row, after)
  {
    if log != [] {
      SliceHolds(log[..|log| - 1], after, row);
      assert log == log[..|log| - 1] + [log[|log| - 1]];
    }
  }

  lemma {:induction false} PerRowHolds<P>(sources: seq<Source<P>>, rows: seq<LogRow>, e: Event<P>)
    requires RefsDistinct(sources) && KindsKnown(sources)
    ensures e in PerRow(sources, rows) <==>
            && HasContent(sources, e.ref, e.content)
            && HasRow(rows, e.sequence, e.ref)
  {
    if rows != [] {
      var n := |rows| - 1;
      PerRowHolds(sources, rows[..n], e);
      OneRowHolds(sources, rows[n], e);
      HasRowSnoc(rows, e.sequence, e.ref);
    }
  }

  lemma HasRowSnoc(rows: seq<LogRow>, sequence: nat, ref: Ref)
    requires rows != []
    ensures var n := |rows| - 1;
            HasRow(rows, sequence, ref) <==>
            HasRow(rows[..n], sequence, ref) || (rows[n].sequence == sequence && rows[n].ref == ref)
  {
    var n := |rows| - 1;
    if i :| 0 <= i < n && rows[..n][i].sequence == sequence && rows[..n][i].ref == ref {
      assert rows[i].sequence == sequence && rows[i].ref == ref;
    }
    if i :| 0 <= i < |rows| && rows[i].sequence == sequence && rows[i].ref == ref {
      if i < n { assert rows[..n][i].sequence == sequence && rows[..n][i].ref == ref; }
    }
  }

  predicate HasRow(log: seq<LogRow>, sequence: nat, ref: Ref) {
    exists i :: 0 <= i < |log| && log[i].sequence == sequence && log[i].ref == ref
  }

  /** Some source row of that key has that content. */
  predicate HasContent<P(==)>(sources: seq<Source<P>>, ref: Ref, content: P) {
    exists i :: 0 <= i < |sources| && sources[i].ref == ref && sources[i].content == content
  }

  lemma OneRowHolds<P>(sources: seq<Source<P>>, row: LogRow, e: Event<P>)
    requires RefsDistinct(sources) && KindsKnown(sources)
    ensures e in RowEvent(sources, row) <==>
            && HasContent(sources, e.ref, e.content)
            && row.sequence == e.sequence && row.ref == e.ref
  {
    FindIsSource(sources, row.ref);
    if HasContent(sources, e.ref, e.content) && row.ref == e.ref {
      var i :| 0 <= i < |sources| && sources[i].ref == e.ref && sources[i].content == e.content;
      FindThe(sources, i);
    }
  }

  /**
   What a replay delivers: for every row of the synced log behind the cursor whose source row
   is still there, an event with its sequence id, its key and the present content of its
   source; nothing else.
   */
  lemma ReplayIsExact<P>(sources: seq<Source<P>>, log: seq<LogRow>, after: Option<int>, e: Event<P>)
    requires RefsDistinct(sources) && KindsKnown(sources)
    ensures e in Replay(sources, log, after) <==>
            && HasContent(sources, e.ref, e.content)
            && (after.Some? ==> e.sequence > after.value)
            && HasRow(Synced(sources, log), e.sequence, e.ref)
  {
    SliceRow(Synced(sources, log), after, e.sequence, e.ref);
    PerRowHolds(sources, Slice(Synced(sources, log), after), e);
  }

  lemma SliceRow(log: seq<LogRow>, after: Option<int>, sequence: nat, ref: Ref)
    ensures HasRow(Slice(log, after), sequence, ref) <==>
            (after.Some? ==> sequence > after.value) && HasRow(log, sequence, ref)
  {
    var rows := Slice(log, after);
    if i :| 0 <= i < |rows| && rows[i].sequence == sequence && rows[i].ref == ref {
      SliceHolds(log, after, rows[i]);
      assert rows[i] in rows && rows[i] in log;
    }
    if i :| 0 <= i < |log| && log[i].sequence == sequence && log[i].ref == ref {
      SliceHolds(log, after, log[i]);
      assert log[i] in log;
    }
  }

  /** Events come in the order of their sequence ids, each id once. */
  lemma ReplayAscends<P>(sources: seq<Source<P>>, log: seq<LogRow>, after: Option<int>)
    requires RefsDistinct(sources) && KindsKnown(sources) && Ascending(log) && LoggedOnce(log)
    ensures EventsAscend(Replay(sources, log, after))
  {
    SyncBackfills(sources, log);
    SliceAscends(Synced(sources, log), after);
    PerRowAscends(sources, Slice(Synced(sources, log), after));
  }

  lemma {:induction false} SliceAscends(log: seq<LogRow>, after: Option<int>)
    requires Ascending(log)
    ensures Ascending(Slice(log, after))
  {
    if log != [] {
      var n := |log| - 1;
      SliceAscends(log[..n], after);
      forall i | 0 <= i < |Slice(log[..n], after)|
        ensures Slice(log[..n], after)[i].sequence < log[n].sequence
      {
        SliceHolds(log[..n], after, Slice(log[..n], after)[i]);
      }
    }
  }

  ghost predicate EventsAscend<P>(events: seq<Event<P>>) {
    forall i, j :: 0 <= i < j < |events| ==> events[i].sequence < events[j].sequence
  }

  ghost predicate NoneBehind<P>(events: seq<Event<P>>, rows: seq<LogRow>) {
    forall i :: 0 <= i < |events| ==> rows != [] && events[i].sequence <= rows[|rows| - 1].sequence
  }

  lemma {:induction false} PerRowAscends<P>(sources: seq<Source<P>>, rows: seq<LogRow>)
    requires Ascending(rows)
    ensures EventsAscend(PerRow(sources, rows)) && NoneBehind(PerRow(sources, rows), rows)
  {
    if rows != [] {
      var n := |rows| - 1;
      var before := PerRow(sources, rows[..n]);
      PerRowAscends(sources, rows[..n]);
      forall i | 0 <= i < |before| ensures before[i].sequence < rows[n].sequence {
        assert before[i].sequence <= rows[..n][n - 1].sequence;
      }
    }
  }

  // ---------------------------------------------------------------- the functions of the source

  class Feed<!P(==)> {
    var sources: seq<Source<P>>
    var log: seq<LogRow>

    constructor (sources: seq<Source<P>>, log: seq<LogRow>)
      ensures this.sources == sources && this.log == log
    {
      this.sources, this.log := sources, log;
    }

    /**
     `_sync_event_log`. Pending rows are not visible to the race check, which reads the
     committed log only.
     */
    method Sync()
      requires RefsDistinct(sources) && KindsKnown(sources)
      modifies this`log
      ensures log == Synced(sources, old(log))
    {
      var candidates := Candidates(sources, log);
      if candidates == [] {
        return;
      }
      var ordered := SortBy(CandidateLeq, candidates);
      SortedCandidates(sources, log);
      CandidatesHold(sources, log);
      var pending := log;
      for k := 0 to |ordered|
        invariant pending == AppendAll(log, ordered[..k])
        invariant log == old(log)
      {
        assert ordered[k] in ordered;
        assert ordered[..k + 1][..k] == ordered[..k];
        var raced := exists i :: 0 <= i < |log| && log[i].ref == ordered[k].ref;
        if !raced {
          pending := pending + [LogRow(NextSequence(pending), ordered[k].ref, ordered[k].createdAt)];
        }
      }
      assert ordered[..|ordered|] == ordered;
      log := pending;
    }

    /** `dict.fromkeys(row.entity_type for row in rows)` */
    method DistinctKinds(rows: seq<LogRow>) returns (kinds: seq<string>)
      ensures forall i :: 0 <= i < |rows| ==> rows[i].ref.kind in kinds
      ensures forall i, j :: 0 <= i < j < |kinds| ==> kinds[i] != kinds[j]
      ensures forall j :: 0 <= j < |kinds| ==> KindOccurs(rows, kinds[j])
    {
      kinds := [];
      for k := 0 to |rows|
        invariant forall i :: 0 <= i < k ==> rows[i].ref.kind in kinds
        invariant forall i, j :: 0 <= i < j < |kinds| ==> kinds[i] != kinds[j]
        invariant forall j :: 0 <= j < |kinds| ==> KindOccurs(rows, kinds[j])
      {
        if rows[k].ref.kind !in kinds {
          kinds := kinds + [rows[k].ref.kind];
        }
      }
    }

    /** The first loop of `_payloads`: every source row the slice refers to, one load per entity type. */
    method LoadEntities(rows: seq<LogRow>, after: Option<int>) returns (entities: map<Ref, Source<P>>)
      ensures FromSources(sources, entities)
      ensures forall i :: 0 <= i < |rows| ==> Covers(sources, log, after, entities, rows[i].ref.kind)
    {
      entities := map[];
      var kinds := DistinctKinds(rows);
      for k := 0 to |kinds|
        invariant FromSources(sources, entities)
        invariant forall j :: 0 <= j < k ==> Covers(sources, log, after, entities, kinds[j])
      {
        if kinds[k] in KINDS {
          entities := LoadKind(kinds[k], after, entities);
        }
      }
    }

    method LoadKind(kind: string, after: Option<int>, before: map<Ref, Source<P>>)
      returns (entities: map<Ref, Source<P>>)
      requires kind in KINDS && FromSources(sources, before)
      ensures FromSources(sources, entities) && before.Keys <= entities.Keys
      ensures Covers(sources, log, after, entities, kind)
    {
      entities := before;
      var loaded := Loaded(sources, log, kind, after);
      for m := 0 to |loaded|
        invariant FromSources(sources, entities) && before.Keys <= entities.Keys
        invariant forall i :: 0 <= i < m ==> loaded[i].ref in entities
      {
        LoadedHolds(sources, log, kind, after, loaded[m]);
        entities := entities[loaded[m].ref := loaded[m]];
      }
      forall s | s in sources && s.ref.kind == kind && InSlice(log, s.ref, after) ensures s.ref in entities {
        LoadedHolds(sources, log, kind, after, s);
      }
    }

    /** `_payloads`: one load per entity type instead of one lookup per row, with the same result. */
    method Payloads(rows: seq<LogRow>, after: Option<int>) returns (events: seq<Event<P>>)
      requires RefsDistinct(sources)
      requires rows == Slice(log, after)
      ensures events == PerRow(sources, rows)
    {
      var entities := LoadEntities(rows, after);
      events := [];
      for k := 0 to |rows|
        invariant events == PerRow(sources, rows[..k])
      {
        var row := rows[k];
        assert rows[..k + 1][..k] == rows[..k];
        EntityIsFound(sources, log, after, rows, k, entities);
        if row.ref in entities {
          events := events + [Event(row.sequence, row.ref, entities[row.ref].content)];
        }
      }
      assert rows[..|rows|] == rows;
    }

    /** `_events` */
    method Events(after: Option<int>) returns (events: seq<Event<P>>)
      requires RefsDistinct(sources) && KindsKnown(sources)
      modifies this`log
      ensures log == Synced(sources, old(log))
      ensures events == Replay(sources, old(log), after)
    {
      Sync();
      events := Payloads(Slice(log, after), after);
    }
  }

  /** Every loaded entity is a row of a known source table, under its own key. */
  ghost predicate FromSources<P>(sources: seq<Source<P>>, entities: map<Ref, Source<P>>) {
    forall r :: r in entities ==> r.kind in KINDS && entities[r] in sources && entities[r].ref == r
  }

  /** Every row of this kind that the slice refers to is loaded. */
  ghost predicate Covers<P>(sources: seq<Source<P>>, log: seq<LogRow>, after: Option<int>,
                            entities: map<Ref, Source<P>>, kind: string) {
    kind in KINDS ==> forall s :: s in sources && s.ref.kind == kind && InSlice(log, s.ref, after) ==> s.ref in entities
  }

  /** The dictionary answers for a row of the slice exactly as a lookup of its own would. */
  lemma EntityIsFound<P>(sources: seq<Source<P>>, log: seq<LogRow>, after: Option<int>, rows: seq<LogRow>, k: nat,
                         entities: map<Ref, Source<P>>)
    requires RefsDistinct(sources) && rows == Slice(log, after) && k < |rows|
    requires FromSources(sources, entities) && Covers(sources, log, after, entities, rows[k].ref.kind)
    ensures var row := rows[k];
            RowEvent(sources, row) ==
            if row.ref in entities then [Event(row.sequence, row.ref, entities[row.ref].content)] else []
  {
    var row := rows[k];
    SliceHolds(log, after, row);
    assert row in rows;
    assert InSlice(log, row.ref, after);
    FindIsSource(sources, row.ref);
    if row.ref in entities { SourceIsFound(sources, entities[row.ref]); }
  }

  lemma SourceIsFound<P>(sources: seq<Source<P>>, s: Source<P>)
    requires RefsDistinct(sources) && s in sources
    ensures Find(sources, s.ref) == Some(s)
  {
    var i :| 0 <= i < |sources| && sources[i] == s;
    FindThe(sources, i);
  }
}
