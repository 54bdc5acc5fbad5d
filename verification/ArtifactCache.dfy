/**
 The artifact cache, backend/app/modules/artifacts/cache.py: a lookup answers only with a
 row whose file still has the recorded size and digest, and demotes a damaged row to
 CORRUPT with one audit record. Shown here: it agrees with recomputing, in every run of
 lookups, insertions and outside damage to the files.
 */
module ArtifactCache {
  import opened Wrappers
  import opened Utf8
  import ArtifactStore

  datatype Key = Key(kind: string, inputHash: string, settingsHash: string)

  datatype Status = WRITING | READY | CORRUPT | SUPERSEDED | DELETED

  datatype Row = Row(
    id: nat, key: Key, status: Status, relativePath: string, sha256: string, byteSize: nat, createdAt: int)

  datatype Reason = Missing | ByteSizeMismatch | Sha256Mismatch

  datatype Audit = Audit(entityId: nat, beforeHash: string, afterHash: Option<string>, reason: Reason,
                         relativePath: string, expectedSize: nat, actualSize: Option<nat>)

  type Files = map<string, seq<byte>>

  // ---------------------------------------------------------------- lookup on values

  /** ORDER BY created_at DESC, id DESC: whether a comes before b. */
  predicate Newer(a: Row, b: Row) {
    a.createdAt > b.createdAt || (a.createdAt == b.createdAt && a.id > b.id)
  }

  predicate Candidate(row: Row, key: Key) {
    row.key == key && row.status == READY
  }

  /** The position of the row the SELECT returns first. */
  function Select(rows: seq<Row>, key: Key): (r: Option<nat>)
    ensures r.Some? ==> r.value < |rows| && Candidate(rows[r.value], key)
    ensures r.None? ==> forall i :: 0 <= i < |rows| ==> !Candidate(rows[i], key)
    ensures r.Some? ==> forall i :: 0 <= i < |rows| && Candidate(rows[i], key) ==>
              || rows[i].createdAt < rows[r.value].createdAt
              || (rows[i].createdAt == rows[r.value].createdAt && rows[i].id <= rows[r.value].id)
  {
    if rows == [] then None
    else
      var n := |rows| - 1;
      var best := Select(rows[..n], key);
      if Candidate(rows[n], key) && (best.None? || Newer(rows[n], rows[best.value])) then Some(n) else best
  }

  /** Why the row's file cannot be used; None when it can. */
  function Fault(hash: seq<byte> -> string, files: Files, row: Row): Option<Reason> {
    if row.relativePath !in files then Some(Missing)
    else if |files[row.relativePath]| != row.byteSize then Some(ByteSizeMismatch)
    else if hash(files[row.relativePath]) != row.sha256 then Some(Sha256Mismatch)
    else None
  }

  function AuditOf(hash: seq<byte> -> string, files: Files, row: Row, reason: Reason): Audit {
    Audit(row.id, row.sha256,
          if reason.Sha256Mismatch? && row.relativePath in files then Some(hash(files[row.relativePath])) else None,
          reason, row.relativePath, row.byteSize,
          if row.relativePath in files then Some(|files[row.relativePath]|) else None)
  }

  datatype Outcome = Outcome(hit: Option<Row>, rows: seq<Row>, audits: seq<Audit>)

  function LookupStep(hash: seq<byte> -> string, files: Files, rows: seq<Row>, audits: seq<Audit>, key: Key): Outcome {
    match Select(rows, key)
    case None => Outcome(None, rows, audits)
    case Some(i) =>
      match Fault(hash, files, rows[i])
      case None => Outcome(Some(rows[i]), rows, audits)
      case Some(reason) =>
        Outcome(None, rows[i := rows[i].(status := CORRUPT)], audits + [AuditOf(hash, files, rows[i], reason)])
  }

  // ---------------------------------------------------------------- runs

  datatype State = State(files: Files, rows: seq<Row>, audits: seq<Audit>)

  datatype Action =
    | Look(key: Key)
    | Insert(key: Key, id: nat, relativePath: string, createdAt: int)  // recompute, store, insert READY
    | Damage(relativePath: string, content: Option<seq<byte>>)         // someone else changes or removes a file

  /** The store refuses a taken path, the table a taken id and a second READY row for the key. */
  predicate InsertRefused(s: State, a: Action)
    requires a.Insert?
  {
    || a.relativePath in s.files
    || (exists i :: 0 <= i < |s.rows| && s.rows[i].id == a.id)
    || (exists i :: 0 <= i < |s.rows| && Candidate(s.rows[i], a.key))
  }

  function Step(hash: seq<byte> -> string, recompute: Key -> seq<byte>, s: State, a: Action): State {
    match a
    case Look(key) =>
      var r := LookupStep(hash, s.files, s.rows, s.audits, key);
      State(s.files, r.rows, r.audits)
    case Insert(key, id, path, createdAt) =>
      if InsertRefused(s, a) then s
      else
        var bytes := recompute(key);
        State(s.files[path := bytes], s.rows + [Row(id, key, READY, path, hash(bytes), |bytes|, createdAt)], s.audits)
    case Damage(path, content) =>
      State(if content.Some? then s.files[path := content.value] else s.files - {path}, s.rows, s.audits)
  }

  function Run(hash: seq<byte> -> string, recompute: Key -> seq<byte>, s: State, actions: seq<Action>): State
    decreases |actions|
  {
    if actions == [] then s
    else Run(hash, recompute, Step(hash, recompute, s, actions[0]), actions[1..])
  }

  const Empty := State(map[], [], [])

  // ---------------------------------------------------------------- the invariant

  /** READY rows describe the recomputation of their key. */
  ghost predicate RowsDescribe(hash: seq<byte> -> string, recompute: Key -> seq<byte>, rows: seq<Row>) {
    forall i :: 0 <= i < |rows| && rows[i].status == READY ==>
      rows[i].sha256 == hash(recompute(rows[i].key)) && rows[i].byteSize == |recompute(rows[i].key)|
  }

  ghost predicate OneReadyPerKey(rows: seq<Row>) {
    forall i, j :: 0 <= i < j < |rows| && rows[i].status == READY && rows[j].status == READY ==>
      rows[i].key != rows[j].key
  }

  ghost predicate IdsDistinct(rows: seq<Row>) {
    forall i, j :: 0 <= i < j < |rows| ==> rows[i].id != rows[j].id
  }

  ghost predicate Recorded(audits: seq<Audit>, id: nat) {
    exists k :: 0 <= k < |audits| && audits[k].entityId == id
  }

  ghost predicate Demoted(rows: seq<Row>, id: nat) {
    exists i :: 0 <= i < |rows| && rows[i].status == CORRUPT && rows[i].id == id
  }

  ghost predicate AuditedOnce(audits: seq<Audit>) {
    forall k, m :: 0 <= k < m < |audits| ==> audits[k].entityId != audits[m].entityId
  }

  /** Demoted rows and audit records correspond one to one. */
  ghost predicate AuditsMatch(rows: seq<Row>, audits: seq<Audit>) {
    && (forall i :: 0 <= i < |rows| ==> rows[i].status == READY || rows[i].status == CORRUPT)
    && (forall id :: Demoted(rows, id) <==> Recorded(audits, id))
    && AuditedOnce(audits)
  }

  ghost predicate Invariant(hash: seq<byte> -> string, recompute: Key -> seq<byte>, s: State) {
    && RowsDescribe(hash, recompute, s.rows) && OneReadyPerKey(s.rows)
    && IdsDistinct(s.rows) && AuditsMatch(s.rows, s.audits)
  }

  lemma InsertInvariant(hash: seq<byte> -> string, recompute: Key -> seq<byte>, s: State, a: Action)
    requires Invariant(hash, recompute, s) && a.Insert?
    ensures Invariant(hash, recompute, Step(hash, recompute, s, a))
  {
    var t := Step(hash, recompute, s, a);
    if t != s {
      var n := |s.rows|;
      assert forall i :: 0 <= i < n ==> t.rows[i] == s.rows[i] && t.rows[i].id != a.id && !Candidate(t.rows[i], a.key);
      forall id ensures Demoted(t.rows, id) <==> Demoted(s.rows, id) {
        if Demoted(s.rows, id) {
          var i :| 0 <= i < n && s.rows[i].status == CORRUPT && s.rows[i].id == id;
          assert t.rows[i] == s.rows[i];
        }
      }
    }
  }

  lemma LookInvariant(hash: seq<byte> -> string, recompute: Key -> seq<byte>, s: State, key: Key)
    requires Invariant(hash, recompute, s)
    ensures Invariant(hash, recompute, Step(hash, recompute, s, Look(key)))
  {
    var selected := Select(s.rows, key);
    if selected.Some? && Fault(hash, s.files, s.rows[selected.value]).Some? {
      var row := s.rows[selected.value];
      DemoteKeepsAudits(s.rows, s.audits, selected.value, AuditOf(hash, s.files, row, Fault(hash, s.files, row).value));
    }
  }

  lemma DemoteKeepsAudits(rows: seq<Row>, audits: seq<Audit>, d: nat, audit: Audit)
    requires d < |rows| && rows[d].status == READY && audit.entityId == rows[d].id
    requires IdsDistinct(rows) && AuditsMatch(rows, audits)
    ensures AuditsMatch(rows[d := rows[d].(status := CORRUPT)], audits + [audit])
  {
    var rows', audits' := rows[d := rows[d].(status := CORRUPT)], audits + [audit];
    forall id ensures Demoted(rows', id) <==> Demoted(rows, id) || id == rows[d].id {
      assert rows'[d].id == rows[d].id;
      if Demoted(rows, id) {
        var i :| 0 <= i < |rows| && rows[i].status == CORRUPT && rows[i].id == id;
        assert rows'[i] == rows[i];
      }
    }
    forall id ensures Recorded(audits', id) <==> Recorded(audits, id) || id == audit.entityId {
      assert audits'[|audits|] == audit;
      if Recorded(audits, id) {
        var k :| 0 <= k < |audits| && audits[k].entityId == id;
        assert audits'[k] == audits[k];
      }
    }
    assert !Demoted(rows, rows[d].id);
    assert !Recorded(audits, audit.entityId);
  }

  /** A READY row is the only candidate for its key, so it is the one selected. */
  lemma OnlyCandidate(rows: seq<Row>, key: Key, d: nat)
    requires OneReadyPerKey(rows) && d < |rows| && Candidate(rows[d], key)
    ensures Select(rows, key) == Some(d)
  {
    var i := Select(rows, key).value;
    assert !(i < d) && !(d < i);
  }

  lemma {:induction false} RunInvariant(hash: seq<byte> -> string, recompute: Key -> seq<byte>, s: State,
                                        actions: seq<Action>)
    requires Invariant(hash, recompute, s)
    ensures Invariant(hash, recompute, Run(hash, recompute, s, actions))
    decreases |actions|
  {
    if actions != [] {
      match actions[0]
      {
        case Look(key) => LookInvariant(hash, recompute, s, key);
        case Insert(_, _, _, _) => InsertInvariant(hash, recompute, s, actions[0]);
        case Damage(_, _) =>
      }
      RunInvariant(hash, recompute, Step(hash, recompute, s, actions[0]), actions[1..]);
    }
  }

  // ---------------------------------------------------------------- agreement with recomputation

  /** The file a READY row points to holds exactly what recomputing the key would give. */
  predicate Intact(recompute: Key -> seq<byte>, s: State, row: Row) {
    row.relativePath in s.files && s.files[row.relativePath] == recompute(row.key)
  }

  /**
   In every reachable state a lookup hits exactly when the key has a READY row whose file
   is undamaged, and a hit's file holds the recomputation of the key.
   */
  lemma HitIffIntact(hash: seq<byte> -> string, recompute: Key -> seq<byte>, actions: seq<Action>, key: Key)
    requires ArtifactStore.Injective(hash)
    ensures var s := Run(hash, recompute, Empty, actions);
            var hit := LookupStep(hash, s.files, s.rows, s.audits, key).hit;
            && (hit.Some? ==> hit.value in s.rows && Candidate(hit.value, key) && Intact(recompute, s, hit.value))
            && (hit.Some? <==>
                  exists i :: 0 <= i < |s.rows| && Candidate(s.rows[i], key) && Intact(recompute, s, s.rows[i]))
  {
    RunInvariant(hash, recompute, Empty, actions);
    var s := Run(hash, recompute, Empty, actions);
    var selected := Select(s.rows, key);
    if selected.Some? {
      var row := s.rows[selected.value];
      assert Fault(hash, s.files, row).None? <==> Intact(recompute, s, row);
      forall i | 0 <= i < |s.rows| && Candidate(s.rows[i], key) ensures i == selected.value {
        OnlyCandidate(s.rows, key, i);
      }
    }
  }

  /**
   In every reachable state a lookup changes something if and only if the key has a READY
   row whose file is damaged.
   */
  lemma LookupChangesIff(hash: seq<byte> -> string, recompute: Key -> seq<byte>, actions: seq<Action>, key: Key)
    requires ArtifactStore.Injective(hash)
    ensures var s := Run(hash, recompute, Empty, actions);
            Step(hash, recompute, s, Look(key)) != s <==>
              exists i :: 0 <= i < |s.rows| && Candidate(s.rows[i], key) && !Intact(recompute, s, s.rows[i])
  {
    RunInvariant(hash, recompute, Empty, actions);
    var s := Run(hash, recompute, Empty, actions);
    var selected := Select(s.rows, key);
    if selected.Some? {
      var row := s.rows[selected.value];
      assert Fault(hash, s.files, row).None? <==> Intact(recompute, s, row);
      forall i | 0 <= i < |s.rows| && Candidate(s.rows[i], key) ensures i == selected.value {
        OnlyCandidate(s.rows, key, i);
      }
    }
  }

  /**
   The record of a damaged row: its id and path, the digest and size it should have, and what
   was found instead. The digest is only taken of a file of the right size.
   */
  predicate Reports(audit: Audit, hash: seq<byte> -> string, files: Files, row: Row, expected: seq<byte>) {
    && audit.entityId == row.id && audit.relativePath == row.relativePath
    && audit.beforeHash == hash(expected) && audit.expectedSize == |expected|
    && if row.relativePath !in files then
         audit.reason == Missing && audit.actualSize == None && audit.afterHash == None
       else
         var content := files[row.relativePath];
         && audit.actualSize == Some(|content|)
         && if |content| != |expected| then audit.reason == ByteSizeMismatch && audit.afterHash == None
            else audit.reason == Sha256Mismatch && audit.afterHash == Some(hash(content))
  }

  /**
   A miss caused by damage demotes exactly the damaged row, with exactly one audit record
   that tells what was expected and what was found, and touches no other row.
   */
  lemma DamageIsDemoted(hash: seq<byte> -> string, recompute: Key -> seq<byte>, actions: seq<Action>, key: Key, d: nat)
    requires ArtifactStore.Injective(hash)
    requires var s := Run(hash, recompute, Empty, actions);
             d < |s.rows| && Candidate(s.rows[d], key) && !Intact(recompute, s, s.rows[d])
    ensures var s := Run(hash, recompute, Empty, actions);
            var t := Step(hash, recompute, s, Look(key));
            && |t.rows| == |s.rows| && t.files == s.files
            && t.rows[d] == s.rows[d].(status := CORRUPT)
            && (forall i :: 0 <= i < |s.rows| && i != d ==> t.rows[i] == s.rows[i])
            && |t.audits| == |s.audits| + 1 && t.audits[..|s.audits|] == s.audits
            && Reports(t.audits[|s.audits|], hash, s.files, s.rows[d], recompute(key))
  {
    RunInvariant(hash, recompute, Empty, actions);
    var s := Run(hash, recompute, Empty, actions);
    OnlyCandidate(s.rows, key, d);
  }

  /** At most one READY row per key, in every reachable state, and one audit record per demoted row. */
  lemma ReadyRowsUnique(hash: seq<byte> -> string, recompute: Key -> seq<byte>, actions: seq<Action>)
    ensures var s := Run(hash, recompute, Empty, actions); OneReadyPerKey(s.rows) && AuditsMatch(s.rows, s.audits)
  {
    RunInvariant(hash, recompute, Empty, actions);
  }

  /**
   After any miss the recomputed artifact can be inserted under a fresh path and id, and
   the next lookup hits it.
   */
  lemma MissThenInsertHits(hash: seq<byte> -> string, recompute: Key -> seq<byte>, actions: seq<Action>,
                           key: Key, id: nat, path: string, createdAt: int)
    requires var s := Run(hash, recompute, Empty, actions);
             && LookupStep(hash, s.files, s.rows, s.audits, key).hit.None?
             && path !in s.files && forall i :: 0 <= i < |s.rows| ==> s.rows[i].id != id
    ensures var s := Run(hash, recompute, Empty, actions);
            var missed := Step(hash, recompute, s, Look(key));
            var insert := Insert(key, id, path, createdAt);
            var t := Step(hash, recompute, missed, insert);
            && !InsertRefused(missed, insert)
            && LookupStep(hash, t.files, t.rows, t.audits, key).hit
               == Some(Row(id, key, READY, path, hash(recompute(key)), |recompute(key)|, createdAt))
  {
    RunInvariant(hash, recompute, Empty, actions);
    var s := Run(hash, recompute, Empty, actions);
    NoReadyAfterMiss(hash, recompute, s, key);
    InsertThenHit(hash, recompute, Step(hash, recompute, s, Look(key)), Insert(key, id, path, createdAt));
  }

  lemma InsertThenHit(hash: seq<byte> -> string, recompute: Key -> seq<byte>, s: State, a: Action)
    requires a.Insert? && a.relativePath !in s.files
    requires forall i :: 0 <= i < |s.rows| ==> s.rows[i].id != a.id && !Candidate(s.rows[i], a.key)
    ensures !InsertRefused(s, a)
    ensures var t := Step(hash, recompute, s, a);
            LookupStep(hash, t.files, t.rows, t.audits, a.key).hit
            == Some(Row(a.id, a.key, READY, a.relativePath, hash(recompute(a.key)), |recompute(a.key)|, a.createdAt))
  {
    var t := Step(hash, recompute, s, a);
    assert t.rows[..|s.rows|] == s.rows;
    assert Select(t.rows, a.key) == Some(|s.rows|);
  }

  lemma NoReadyAfterMiss(hash: seq<byte> -> string, recompute: Key -> seq<byte>, s: State, key: Key)
    requires Invariant(hash, recompute, s)
    requires LookupStep(hash, s.files, s.rows, s.audits, key).hit.None?
    ensures var t := Step(hash, recompute, s, Look(key));
            && (forall i :: 0 <= i < |t.rows| ==> !Candidate(t.rows[i], key))
            && t.files == s.files && |t.rows| == |s.rows|
            && forall i :: 0 <= i < |s.rows| ==> t.rows[i].id == s.rows[i].id
  {
    var selected := Select(s.rows, key);
    if selected.Some? {
      var t := Step(hash, recompute, s, Look(key));
      forall i | 0 <= i < |t.rows| ensures !Candidate(t.rows[i], key) {
        if Candidate(s.rows[i], key) { OnlyCandidate(s.rows, key, i); }
      }
    }
  }

  // ---------------------------------------------------------------- the class of the source

  class ArtifactCache {
    const hash: seq<byte> -> string
    var files: Files
    var rows: seq<Row>
    var audits: seq<Audit>

    constructor (hash: seq<byte> -> string, files: Files, rows: seq<Row>)
      ensures this.hash == hash && this.files == files && this.rows == rows && audits == []
    {
      this.hash, this.files, this.rows, audits := hash, files, rows, [];
    }

    method Lookup(key: Key) returns (hit: Option<Row>)
      modifies this`rows, this`audits
      ensures Outcome(hit, rows, audits) == LookupStep(hash, files, old(rows), old(audits), key)
    {
      var selected := Select(rows, key);
      if selected.None? {
        return None;
      }
      var artifact := rows[selected.value];
      var reason: Option<Reason> := None;
      var actualSha256: Option<string> := None;
      var actualSize: Option<nat> := None;
      if artifact.relativePath !in files {
        reason := Some(Missing);
      } else {
        var content := files[artifact.relativePath];
        actualSize := Some(|content|);
        if |content| != artifact.byteSize {
          reason := Some(ByteSizeMismatch);
        } else {
          var digest, _ := ArtifactStore.Sha256File(hash, content);
          actualSha256 := Some(digest);
          if digest != artifact.sha256 {
            reason := Some(Sha256Mismatch);
          }
        }
      }
      if reason.None? {
        return Some(artifact);
      }
      rows := rows[selected.value := artifact.(status := CORRUPT)];
      audits := audits + [Audit(artifact.id, artifact.sha256, actualSha256, reason.value,
                                artifact.relativePath, artifact.byteSize, actualSize)];
      return None;
    }
  }
}
