/**
 Storing provider credentials across two systems, backend/app/api/cloud_profiles.py over
 backend/app/modules/security/credentials.py: the secret lives in a keyring, its reference
 in a database row, and a commit that fails is compensated in the keyring.
 */
module CredentialSaga {
  import opened Wrappers
  import opened PyText

  // ---------------------------------------------------------------- the keyring

  datatype Location = Location(service: string, username: string)

  type Keyring = map<Location, string>

  const SERVICE := "truyenaudio-studio"
  const SCHEME := "keyring:"

  function Username(profileId: string): string {
    "provider-profile:" + profileId
  }

  /** `ref_for` */
  function RefFor(profileId: string): string {
    SCHEME + (SERVICE + "/" + Username(profileId))
  }

  /** `raw.split("/", 1)`, or the legacy form without a slash. */
  function LocationOf(raw: string): Location {
    var i := IndexOf(raw, '/');
    if i < |raw| then Location(raw[..i], raw[i + 1..]) else Location(SERVICE, raw)
  }

  /** `_location`; None is SECRET_REF_UNSUPPORTED. */
  function Locate(profileId: string, ref: Option<string>): Option<Location> {
    var text := Strip(if Given(ref) then ref.value else RefFor(profileId));
    if SCHEME <= text then Some(LocationOf(RemovePrefix(text, SCHEME))) else None
  }

  /** Where `set` puts the secret of a profile. */
  function Canonical(profileId: string): Location {
    Location(SERVICE, Username(profileId))
  }

  /** No entry holds the empty secret, which `resolve` could not tell from a missing one. */
  ghost predicate NoEmptySecrets(k: Keyring) {
    forall l :: l in k ==> k[l] != ""
  }

  datatype Resolved = Found(secret: string) | SecretMissing | Unsupported | Unavailable

  function Resolve(k: Keyring, profileId: string, ref: Option<string>, outage: bool): Resolved {
    match Locate(profileId, ref)
    case None => Unsupported
    case Some(l) =>
      if outage then Unavailable
      else if l !in k || k[l] == "" then SecretMissing
      else Found(k[l])
  }

  // ---------------------------------------------------------------- one request on values

  datatype Row = Row(secretRef: Option<string>, revision: int)

  datatype World = World(keyring: Keyring, row: Row)

  /** Which operations fail during one request. */
  datatype Faults = Faults(get: bool, set_: bool, delete: bool, commit: bool, restore: bool, undo: bool)

  datatype Status =
    | Ok200
    | SecretInvalid422
    | KeyringUnavailable503
    | PersistFailed500       // the commit failed, the compensation did not raise
    | CompensationFailed503  // both failed

  datatype Reply = Reply(status: Status, world: World)

  /** `_restore_or_delete` on the keyring: whether it did not raise, and what it left behind. */
  datatype Compensated = Compensated(ok: bool, keyring: Keyring)

  function UndoPut(k: Keyring, profileId: string, previousRef: Option<string>, previous: Option<string>,
                   f: Faults): Compensated {
    UndoAt(k, Canonical(profileId), Locate(profileId, previousRef), Given(previousRef) && previous.Some?,
           previousRef != Some(RefFor(profileId)) || previous.None?, previous, f)
  }

  /**
   First the restore of the previous secret, where one was resolved, then the delete of the
   new entry, where it is another.
   */
  function UndoAt(k: Keyring, canonical: Location, location: Option<Location>, restores: bool, deletes: bool,
                  previous: Option<string>, f: Faults): Compensated
    requires restores ==> previous.Some?
  {
    if restores && (location.None? || f.restore) then Compensated(false, k)
    else
      var restored := if restores then k[location.value := previous.value] else k;
      if !deletes then Compensated(true, restored)
      else if f.undo then Compensated(false, restored)
      else Compensated(true, restored - {canonical})
  }

  /** The secret behind the reference the row holds, where it holds one. */
  function ResolveHeld(w: World, profileId: string, f: Faults): Resolved {
    if Given(w.row.secretRef) then Resolve(w.keyring, profileId, w.row.secretRef, f.get) else SecretMissing
  }

  /** `put_credential` for an existing profile. */
  function Put(w: World, profileId: string, secret: string, f: Faults): Reply {
    if secret == "" then Reply(SecretInvalid422, w)
    else
      var previousRef := w.row.secretRef;
      var resolved := ResolveHeld(w, profileId, f);
      if resolved.Unsupported? || resolved.Unavailable? then Reply(KeyringUnavailable503, w)
      else
        var previous := if resolved.Found? then Some(resolved.secret) else None;
        if Strip(profileId) == "" || Strip(secret) == "" || f.set_ then Reply(KeyringUnavailable503, w)
        else
          var k := w.keyring[Canonical(profileId) := secret];
          if !f.commit then Reply(Ok200, World(k, Row(Some(RefFor(profileId)), w.row.revision + 1)))
          else
            var undone := UndoPut(k, profileId, previousRef, previous, f);
            Reply(if undone.ok then PersistFailed500 else CompensationFailed503, World(undone.keyring, w.row))
  }

  /** `delete_credential` for an existing profile. */
  function Delete(w: World, profileId: string, f: Faults): Reply {
    var previousRef := w.row.secretRef;
    var resolved := ResolveHeld(w, profileId, f);
    if resolved.Unsupported? || resolved.Unavailable? then Reply(KeyringUnavailable503, w)
    else if Given(previousRef) && f.delete then Reply(KeyringUnavailable503, w)
    else
      var location := Locate(profileId, previousRef);
      var k := if Given(previousRef) && location.Some? then w.keyring - {location.value} else w.keyring;
      if !f.commit then Reply(Ok200, World(k, Row(None, w.row.revision + 1)))
      else if resolved.Found? && f.restore then Reply(CompensationFailed503, World(k, w.row))
      else
        Reply(PersistFailed500,
              World(if resolved.Found? && location.Some? then k[location.value := resolved.secret] else k, w.row))
  }

  // ---------------------------------------------------------------- locations

  lemma LocationSplits(service: string, username: string)
    requires forall i :: 0 <= i < |service| ==> service[i] != '/'
    ensures LocationOf(service + "/" + username) == Location(service, username)
  {
    var raw := service + "/" + username;
    assert raw == service + ['/'] + username;
    IndexOfAfter(service, '/', username);
    assert raw[..|service|] == service && raw[|service| + 1..] == username;
  }

  lemma ServiceHasNoSlash()
    ensures forall i :: 0 <= i < |SERVICE| ==> SERVICE[i] != '/'
  {
  }

  /** A reference without outer blanks, at the location it names. */
  lemma LocateSolid(profileId: string, ref: string, raw: string)
    requires ref == SCHEME + raw && raw != "" && !IsSpace(raw[|raw| - 1])
    ensures Locate(profileId, Some(ref)) == Some(LocationOf(raw))
  {
    StripSolid(ref);
    PrefixGone(SCHEME, raw);
  }

  lemma PrefixGone(prefix: string, rest: string)
    ensures prefix <= prefix + rest && RemovePrefix(prefix + rest, prefix) == rest
  {
  }

  /** A profile id as `new_id` makes them: not blank, no blank at its end. */
  predicate ProperId(profileId: string) {
    profileId != "" && !IsSpace(profileId[|profileId| - 1])
  }

  lemma CanonicalLocation(profileId: string)
    requires ProperId(profileId)
    ensures Locate(profileId, Some(RefFor(profileId))) == Some(Canonical(profileId))
  {
    ServiceHasNoSlash();
    CanonicalAt(profileId, SERVICE, Username(profileId));
    LocationSplits(SERVICE, Username(profileId));
  }

  lemma CanonicalAt(profileId: string, service: string, username: string)
    requires username != "" && !IsSpace(username[|username| - 1])
    ensures Locate(profileId, Some(SCHEME + (service + "/" + username))) == Some(LocationOf(service + "/" + username))
  {
    var raw := service + "/" + username;
    assert raw[|raw| - 1] == username[|username| - 1];
    LocateSolid(profileId, SCHEME + raw, raw);
  }

  /** Both forms of a reference, blanks around it ignored: with the service before the first slash, or without. */
  lemma ReferenceForms(profileId: string, service: string, username: string, ref: string)
    requires forall i :: 0 <= i < |service| ==> service[i] != '/'
    ensures Strip(ref) == SCHEME + (service + "/" + username) && ref != "" ==>
              Locate(profileId, Some(ref)) == Some(Location(service, username))
    ensures Strip(ref) == SCHEME + username && ref != "" && (forall i :: 0 <= i < |username| ==> username[i] != '/') ==>
              Locate(profileId, Some(ref)) == Some(Location(SERVICE, username))
    ensures ref != "" ==> (Locate(profileId, Some(ref)) == None <==> !(SCHEME <= Strip(ref)))
  {
    LocationSplits(service, username);
    PrefixGone(SCHEME, service + "/" + username);
    PrefixGone(SCHEME, username);
    if forall i :: 0 <= i < |username| ==> username[i] != '/' { IndexOfMissing(username, '/'); }
  }

  // ---------------------------------------------------------------- when a request is committed

  /** The reference the row holds, if any, is of the supported kind, and the keyring answers. */
  predicate HeldReadable(w: World, f: Faults) {
    Given(w.row.secretRef) ==> SCHEME <= Strip(w.row.secretRef.value) && !f.get
  }

  /** The row refers to an entry that holds a secret. */
  predicate SecretHeld(w: World, profileId: string) {
    && Given(w.row.secretRef) && Locate(profileId, w.row.secretRef).Some?
    && var l := Locate(profileId, w.row.secretRef).value;
       l in w.keyring && w.keyring[l] != ""
  }

  /** Whether the new secret reaches the keyring. */
  predicate PutStores(w: World, profileId: string, secret: string, f: Faults) {
    HeldReadable(w, f) && !Blank(profileId) && !Blank(secret) && !f.set_
  }

  /**
   Whether undoing a put raises: the old secret, where there was one, cannot be written back;
   or the new entry is to be deleted, the reference not being the same or no secret having
   been held, and cannot be.
   */
  predicate UndoRaises(w: World, profileId: string, f: Faults) {
    || (SecretHeld(w, profileId) && f.restore)
    || ((w.row.secretRef != Some(RefFor(profileId)) || !SecretHeld(w, profileId)) && f.undo)
  }

  /** The answer to every put, from row, keyring, input and faults alone. */
  lemma PutStatus(w: World, profileId: string, secret: string, f: Faults)
    ensures var status, stores := Put(w, profileId, secret, f).status, PutStores(w, profileId, secret, f);
            && (status == SecretInvalid422 <==> secret == "")
            && (status == KeyringUnavailable503 <==> secret != "" && !stores)
            && (status == Ok200 <==> stores && !f.commit)
            && (status == PersistFailed500 <==> stores && f.commit && !UndoRaises(w, profileId, f))
            && (status == CompensationFailed503 <==> stores && f.commit && UndoRaises(w, profileId, f))
  {
    StripBlank(profileId);
    StripBlank(secret);
  }

  /** What a put that is not undone leaves: the world as it was, or the new secret and its reference. */
  lemma PutWorld(w: World, profileId: string, secret: string, f: Faults)
    ensures var reply := Put(w, profileId, secret, f);
            && (reply.status == SecretInvalid422 || reply.status == KeyringUnavailable503 ==> reply.world == w)
            && (reply.status == Ok200 ==>
                  reply.world == World(w.keyring[Canonical(profileId) := secret],
                                       Row(Some(RefFor(profileId)), w.row.revision + 1)))
  {
  }

  /** The entry behind the reference is to be deleted, where there is a reference, and can be. */
  predicate DeleteRemoves(w: World, f: Faults) {
    HeldReadable(w, f) && (Given(w.row.secretRef) ==> !f.delete)
  }

  /** The answer to every delete, likewise. */
  lemma DeleteStatus(w: World, profileId: string, f: Faults)
    ensures var status, raises := Delete(w, profileId, f).status, SecretHeld(w, profileId) && f.restore;
            && status != SecretInvalid422
            && (status == KeyringUnavailable503 <==> !DeleteRemoves(w, f))
            && (status == Ok200 <==> DeleteRemoves(w, f) && !f.commit)
            && (status == PersistFailed500 <==> DeleteRemoves(w, f) && f.commit && !raises)
            && (status == CompensationFailed503 <==> DeleteRemoves(w, f) && f.commit && raises)
  {
  }

  /** The keyring is as before, but for the entry that is gone. */
  ghost predicate OnlyLacks(after: Keyring, before: Keyring, gone: Option<Location>) {
    && (forall l :: l in after <==> l in before && gone != Some(l))
    && forall l :: l in after ==> after[l] == before[l]
  }

  /** What a delete leaves: the world as it was, or no reference and nothing behind it. */
  lemma DeleteWorld(w: World, profileId: string, f: Faults)
    ensures var reply := Delete(w, profileId, f);
            var gone := if Given(w.row.secretRef) then Locate(profileId, w.row.secretRef) else None;
            && (reply.status == KeyringUnavailable503 ==> reply.world == w)
            && (reply.status == Ok200 ==> reply.world.row == Row(None, w.row.revision + 1))
            && (reply.status == CompensationFailed503 ==> reply.world.row == w.row)
            && (reply.status == Ok200 || reply.status == CompensationFailed503 ==>
                  OnlyLacks(reply.world.keyring, w.keyring, gone))
  {
  }

  // ---------------------------------------------------------------- compensation

  /**
   Exactly when a put whose commit failed, but whose compensation raised nothing, leaves
   the keyring as it was: the row held the canonical reference, or the canonical entry was
   free. Otherwise it is the canonical entry that is lost, and no other. The row is rolled
   back in any case.
   */
  lemma FailedPutRestoredIff(w: World, profileId: string, secret: string, f: Faults)
    requires ProperId(profileId) && NoEmptySecrets(w.keyring)
    ensures var reply := Put(w, profileId, secret, f);
            reply.status == PersistFailed500 ==>
              && reply.world.row == w.row
              && (reply.world.keyring == w.keyring <==>
                    w.row.secretRef == Some(RefFor(profileId)) || Canonical(profileId) !in w.keyring)
              && (w.row.secretRef != Some(RefFor(profileId)) ==>
                    OnlyLacks(reply.world.keyring, w.keyring, Some(Canonical(profileId))))
  {
    if Put(w, profileId, secret, f).status == PersistFailed500 { UndonePut(w, profileId, secret, f); }
  }

  lemma UndonePut(w: World, profileId: string, secret: string, f: Faults)
    requires ProperId(profileId) && NoEmptySecrets(w.keyring)
    requires Put(w, profileId, secret, f).status == PersistFailed500
    ensures Put(w, profileId, secret, f).world.row == w.row
    ensures Put(w, profileId, secret, f).world.keyring == w.keyring
       <==> w.row.secretRef == Some(RefFor(profileId)) || Canonical(profileId) !in w.keyring
    ensures w.row.secretRef != Some(RefFor(profileId)) ==>
              OnlyLacks(Put(w, profileId, secret, f).world.keyring, w.keyring, Some(Canonical(profileId)))
  {
    var previousRef := w.row.secretRef;
    var previous := PreviousSecret(w, profileId, f);
    PutUndoes(w, profileId, secret, f);
    CanonicalLocation(profileId);
    UndoneIff(w.keyring, Canonical(profileId), secret, Locate(profileId, previousRef), previous.Some?,
              previousRef != Some(RefFor(profileId)) || previous.None?, previous, f);
  }

  function PreviousSecret(w: World, profileId: string, f: Faults): Option<string> {
    var resolved := ResolveHeld(w, profileId, f);
    if resolved.Found? then Some(resolved.secret) else None
  }

  /** A put whose commit failed is the undoing of its `set`. */
  lemma PutUndoes(w: World, profileId: string, secret: string, f: Faults)
    requires Put(w, profileId, secret, f).status == PersistFailed500
    ensures var undone := UndoPut(w.keyring[Canonical(profileId) := secret], profileId, w.row.secretRef,
                                  PreviousSecret(w, profileId, f), f);
            undone.ok && Put(w, profileId, secret, f) == Reply(PersistFailed500, World(undone.keyring, w.row))
    ensures PreviousSecret(w, profileId, f).Some? ==>
              var l := Locate(profileId, w.row.secretRef);
              Given(w.row.secretRef) && l.Some? && l.value in w.keyring
              && PreviousSecret(w, profileId, f).value == w.keyring[l.value]
  {
  }

  /** Setting the canonical entry and undoing that again, on the keyring alone. */
  lemma UndoneIff(before: Keyring, c: Location, secret: string, location: Option<Location>, found: bool, deletes: bool,
                  previous: Option<string>, f: Faults)
    requires found ==> location.Some? && location.value in before && previous == Some(before[location.value])
    requires !found ==> deletes
    requires !deletes ==> location == Some(c)
    requires UndoAt(before[c := secret], c, location, found, deletes, previous, f).ok
    ensures UndoAt(before[c := secret], c, location, found, deletes, previous, f).keyring == before
       <==> !deletes || c !in before
    ensures deletes ==>
              OnlyLacks(UndoAt(before[c := secret], c, location, found, deletes, previous, f).keyring, before, Some(c))
  {
    var after := UndoAt(before[c := secret], c, location, found, deletes, previous, f).keyring;
    if deletes {
      assert c !in after;
      if c !in before {
        assert forall l :: l in before <==> l in after;
        assert forall l :: l in before ==> after[l] == before[l];
      }
    } else {
      assert forall l :: l in before <==> l in after;
      assert forall l :: l in before ==> after[l] == before[l];
    }
  }

  /** A delete whose commit failed leaves keyring and row as they were, whatever the reference. */
  lemma FailedDeleteRestored(w: World, profileId: string, f: Faults)
    requires NoEmptySecrets(w.keyring)
    requires Delete(w, profileId, f).status == PersistFailed500
    ensures Delete(w, profileId, f).world == w
  {
    var before, after := w.keyring, Delete(w, profileId, f).world.keyring;
    assert forall l :: l in before <==> l in after;
    assert forall l :: l in before ==> after[l] == before[l];
  }

  /** A reference other than the canonical one that names the canonical entry, where a secret is stored. */
  ghost predicate Aliased(w: World, profileId: string, stored: string) {
    && Given(w.row.secretRef) && w.row.secretRef != Some(RefFor(profileId))
    && Locate(profileId, w.row.secretRef) == Some(Canonical(profileId))
    && Canonical(profileId) in w.keyring && w.keyring[Canonical(profileId)] == stored != ""
  }

  /** From such a row a put whose commit fails loses the secret, although no compensation raises. */
  lemma AliasLosesSecret(w: World, profileId: string, stored: string, secret: string)
    requires ProperId(profileId) && Aliased(w, profileId, stored) && Strip(secret) != ""
    ensures var reply := Put(w, profileId, secret, Faults(false, false, false, true, false, false));
            && Resolve(w.keyring, profileId, w.row.secretRef, false) == Found(stored)
            && reply.status == PersistFailed500 && reply.world.row == w.row
            && Resolve(reply.world.keyring, profileId, w.row.secretRef, false) == SecretMissing
  {
    StripBlank(profileId);
    StripBlank(secret);
  }

  /** There is such a row for every profile: the legacy form of its own reference. */
  lemma LegacyReferenceAliases(profileId: string, stored: string, revision: int)
    requires ProperId(profileId) && stored != "" && forall i :: 0 <= i < |profileId| ==> profileId[i] != '/'
    ensures Aliased(World(map[Canonical(profileId) := stored], Row(Some(SCHEME + Username(profileId)), revision)),
                    profileId, stored)
  {
    var raw := Username(profileId);
    IndexOfMissing(raw, '/');
    LocateSolid(profileId, SCHEME + raw, raw);
    assert |RefFor(profileId)| > |SCHEME + raw|;
  }

  // ---------------------------------------------------------------- runs

  datatype Request = PutRequest(secret: string, faults: Faults) | DeleteRequest(faults: Faults)

  function Handle(w: World, profileId: string, r: Request): Reply {
    match r
    case PutRequest(secret, f) => Put(w, profileId, secret, f)
    case DeleteRequest(f) => Delete(w, profileId, f)
  }

  /** No request touches any entry but the canonical one and the one its row refers to. */
  lemma OtherEntriesUntouched(w: World, profileId: string, r: Request, l: Location)
    requires l != Canonical(profileId) && Locate(profileId, w.row.secretRef) != Some(l)
    ensures l in Handle(w, profileId, r).world.keyring <==> l in w.keyring
    ensures l in w.keyring ==> Handle(w, profileId, r).world.keyring[l] == w.keyring[l]
  {
    if r.PutRequest? { OtherEntriesKept(w, profileId, r.secret, r.faults, l); }
  }

  lemma OtherEntriesKept(w: World, profileId: string, secret: string, f: Faults, l: Location)
    requires l != Canonical(profileId) && Locate(profileId, w.row.secretRef) != Some(l)
    ensures l in Put(w, profileId, secret, f).world.keyring <==> l in w.keyring
    ensures l in w.keyring ==> Put(w, profileId, secret, f).world.keyring[l] == w.keyring[l]
  {
  }

  /** The state after a run of requests, each with its own faults. */
  function After(w: World, profileId: string, requests: seq<Request>): World {
    if requests == [] then w
    else Handle(After(w, profileId, requests[..|requests| - 1]), profileId, requests[|requests| - 1]).world
  }

  function StatusAt(w: World, profileId: string, requests: seq<Request>, k: nat): Status
    requires k < |requests|
  {
    Handle(After(w, profileId, requests[..k]), profileId, requests[k]).status
  }

  /** The secret of the last committed put, None when a delete was committed since, or nothing at all. */
  function LastCommitted(w: World, profileId: string, initial: Option<string>, requests: seq<Request>): Option<string> {
    if requests == [] then initial
    else
      var k := |requests| - 1;
      if StatusAt(w, profileId, requests, k) != Ok200 then LastCommitted(w, profileId, initial, requests[..k])
      else if requests[k].PutRequest? then Some(requests[k].secret) else None
  }

  function Committed(w: World, profileId: string, requests: seq<Request>): nat {
    if requests == [] then 0
    else
      var k := |requests| - 1;
      Committed(w, profileId, requests[..k]) + if StatusAt(w, profileId, requests, k) == Ok200 then 1 else 0
  }

  /**
   The row and the keyring agree on `secret`: with a secret the row holds the canonical
   reference and it resolves to that secret, without one the row has no reference and the
   canonical entry is free.
   */
  ghost predicate Agree(w: World, profileId: string, secret: Option<string>) {
    && NoEmptySecrets(w.keyring)
    && match secret
       case Some(s) =>
         && w.row.secretRef == Some(RefFor(profileId))
         && Resolve(w.keyring, profileId, w.row.secretRef, false) == Found(s)
       case None => !Given(w.row.secretRef) && Canonical(profileId) !in w.keyring
  }

  /**
   A request either leaves the world as it was, or commits: then the revision grows by one
   and the new secret holds.
   */
  lemma HandleAgrees(w: World, profileId: string, secret: Option<string>, r: Request)
    requires ProperId(profileId) && Agree(w, profileId, secret)
    requires Handle(w, profileId, r).status != CompensationFailed503
    ensures var reply := Handle(w, profileId, r);
            if reply.status != Ok200 then reply.world == w
            else Agree(reply.world, profileId, if r.PutRequest? then Some(r.secret) else None)
                 && reply.world.row.revision == w.row.revision + 1
  {
    match r
    case PutRequest(put, f) => PutAgrees(w, profileId, secret, put, f);
    case DeleteRequest(f) => DeleteAgrees(w, profileId, secret, f);
  }

  lemma PutAgrees(w: World, profileId: string, secret: Option<string>, put: string, f: Faults)
    requires ProperId(profileId) && Agree(w, profileId, secret)
    requires Put(w, profileId, put, f).status != CompensationFailed503
    ensures var reply := Put(w, profileId, put, f);
            if reply.status != Ok200 then reply.world == w
            else Agree(reply.world, profileId, Some(put)) && reply.world.row.revision == w.row.revision + 1
  {
    var reply := Put(w, profileId, put, f);
    if reply.status == PersistFailed500 {
      FailedPutRestoredIff(w, profileId, put, f);
    } else if reply.status == Ok200 {
      CommittedPutAgrees(w, profileId, put, f);
    }
  }

  lemma DeleteAgrees(w: World, profileId: string, secret: Option<string>, f: Faults)
    requires ProperId(profileId) && Agree(w, profileId, secret)
    requires Delete(w, profileId, f).status != CompensationFailed503
    ensures var reply := Delete(w, profileId, f);
            if reply.status != Ok200 then reply.world == w
            else Agree(reply.world, profileId, None) && reply.world.row.revision == w.row.revision + 1
  {
    CanonicalLocation(profileId);
    if Delete(w, profileId, f).status == PersistFailed500 {
      FailedDeleteRestored(w, profileId, f);
    }
  }

  /** After a committed put any profile, legacy reference or not, is in agreement. */
  lemma CommittedPutAgrees(w: World, profileId: string, secret: string, f: Faults)
    requires ProperId(profileId) && NoEmptySecrets(w.keyring)
    requires Put(w, profileId, secret, f).status == Ok200
    ensures Agree(Put(w, profileId, secret, f).world, profileId, Some(secret))
  {
    CanonicalLocation(profileId);
  }

  /**
   What a compensation that raised leaves behind, from agreement: the row as it was, and in
   the keyring a secret that was never committed, or no longer the one that was.
   */
  lemma FailedCompensation(w: World, profileId: string, secret: Option<string>, r: Request)
    requires ProperId(profileId) && Agree(w, profileId, secret)
    requires Handle(w, profileId, r).status == CompensationFailed503
    ensures var after := Handle(w, profileId, r).world;
            && after.row == w.row
            && after.keyring == if r.PutRequest? then w.keyring[Canonical(profileId) := r.secret]
                                else w.keyring - {Canonical(profileId)}
  {
    if r.PutRequest? {
      FailedPutCompensation(w, profileId, secret, r.secret, r.faults);
    } else {
      CanonicalLocation(profileId);
    }
  }

  lemma FailedPutCompensation(w: World, profileId: string, secret: Option<string>, put: string, f: Faults)
    requires ProperId(profileId) && Agree(w, profileId, secret)
    requires Put(w, profileId, put, f).status == CompensationFailed503
    ensures Put(w, profileId, put, f).world == w.(keyring := w.keyring[Canonical(profileId) := put])
  {
    CanonicalLocation(profileId);
    assert ResolveHeld(w, profileId, f).Found? <==> secret.Some?;
  }

  /** A committed put, or a committed delete of a canonical reference. */
  predicate Recovers(w: World, profileId: string, r: Request) {
    Handle(w, profileId, r).status == Ok200 && (r.PutRequest? || w.row.secretRef == Some(RefFor(profileId)))
  }

  lemma RecoveredAgrees(w: World, profileId: string, r: Request)
    requires ProperId(profileId) && NoEmptySecrets(w.keyring) && Recovers(w, profileId, r)
    ensures Agree(Handle(w, profileId, r).world, profileId, if r.PutRequest? then Some(r.secret) else None)
  {
    CanonicalLocation(profileId);
    if r.PutRequest? { CommittedPutAgrees(w, profileId, r.secret, r.faults); }
  }

  /** The run started in agreement, or recovered on the way, and no compensation has raised since. */
  predicate Settled(w: World, profileId: string, agreed: bool, requests: seq<Request>) {
    if requests == [] then agreed
    else
      var k := |requests| - 1;
      || Recovers(After(w, profileId, requests[..k]), profileId, requests[k])
      || (Settled(w, profileId, agreed, requests[..k]) && StatusAt(w, profileId, requests, k) != CompensationFailed503)
  }

  lemma HandleKeepsSecrets(w: World, profileId: string, r: Request)
    requires NoEmptySecrets(w.keyring)
    ensures NoEmptySecrets(Handle(w, profileId, r).world.keyring)
  {
  }

  lemma {:induction false} SecretsStay(w: World, profileId: string, requests: seq<Request>)
    requires NoEmptySecrets(w.keyring)
    ensures NoEmptySecrets(After(w, profileId, requests).keyring)
  {
    if requests != [] {
      var k := |requests| - 1;
      SecretsStay(w, profileId, requests[..k]);
      HandleKeepsSecrets(After(w, profileId, requests[..k]), profileId, requests[k]);
    }
  }

  /**
   Over any run of puts and deletes with arbitrary failures, as long as no compensation has
   raised since the last request that recovers: the row's reference resolves to the secret
   of the last committed put, or there is neither reference nor entry.
   */
  lemma {:induction false} SagaHolds(w: World, profileId: string, initial: Option<string>, agreed: bool,
                                     requests: seq<Request>)
    requires ProperId(profileId) && NoEmptySecrets(w.keyring) && (agreed ==> Agree(w, profileId, initial))
    requires Settled(w, profileId, agreed, requests)
    ensures Agree(After(w, profileId, requests), profileId, LastCommitted(w, profileId, initial, requests))
  {
    if requests != [] {
      var k := |requests| - 1;
      var init := requests[..k];
      var before := After(w, profileId, init);
      if Recovers(before, profileId, requests[k]) {
        SecretsStay(w, profileId, init);
        RecoveredAgrees(before, profileId, requests[k]);
      } else {
        SagaHolds(w, profileId, initial, agreed, init);
        HandleAgrees(before, profileId, LastCommitted(w, profileId, initial, init), requests[k]);
      }
    }
  }

  /** The revision counts the committed changes, in every run from any state. */
  lemma {:induction false} RevisionCounts(w: World, profileId: string, requests: seq<Request>)
    ensures After(w, profileId, requests).row.revision == w.row.revision + Committed(w, profileId, requests)
  {
    if requests != [] {
      var k := |requests| - 1;
      RevisionCounts(w, profileId, requests[..k]);
      OneRevision(After(w, profileId, requests[..k]), profileId, requests[k]);
    }
  }

  lemma OneRevision(w: World, profileId: string, r: Request)
    ensures var reply := Handle(w, profileId, r);
            reply.world.row.revision == w.row.revision + if reply.status == Ok200 then 1 else 0
  {
  }

  // ---------------------------------------------------------------- the routes of the source

  class Profile {
    const id: string
    var keyring: Keyring
    var secretRef: Option<string>
    var revision: int

    ghost function Value(): World
      reads this
    {
      World(keyring, Row(secretRef, revision))
    }

    constructor (id: string, keyring: Keyring, secretRef: Option<string>, revision: int)
      ensures this.id == id && Value() == World(keyring, Row(secretRef, revision))
    {
      this.id, this.keyring, this.secretRef, this.revision := id, keyring, secretRef, revision;
    }

    /** `_commit_with_compensation`: on a failed commit the row goes back to its stored state. */
    method Rollback(storedRef: Option<string>, storedRevision: int)
      modifies this`secretRef, this`revision
      ensures secretRef == storedRef && revision == storedRevision
    {
      secretRef, revision := storedRef, storedRevision;
    }

    /** `_restore_or_delete` */
    method RestoreOrDelete(previousRef: Option<string>, previous: Option<string>, f: Faults) returns (ok: bool)
      modifies this`keyring
      ensures Compensated(ok, keyring) == UndoPut(old(keyring), id, previousRef, previous, f)
    {
      if Given(previousRef) && previous.Some? {
        var location := Locate(id, previousRef);
        if location.None? || f.restore {
          return false;
        }
        keyring := keyring[location.value := previous.value];
      }
      if previousRef != Some(RefFor(id)) || previous.None? {
        if f.undo {
          return false;
        }
        keyring := keyring - {Canonical(id)};
      }
      return true;
    }

    method PutCredential(secret: string, f: Faults) returns (status: Status)
      modifies this
      ensures Reply(status, Value()) == Put(old(Value()), id, secret, f)
    {
      if secret == "" {
        return SecretInvalid422;
      }
      var previousRef, storedRevision := secretRef, revision;
      var previous: Option<string> := None;
      if Given(previousRef) {
        var resolved := Resolve(keyring, id, previousRef, f.get);
        match resolved {
          case Unavailable => return KeyringUnavailable503;
          case Unsupported => return KeyringUnavailable503;
          case SecretMissing =>
          case Found(value) => previous := Some(value);
        }
      }
      if Strip(id) == "" || Strip(secret) == "" || f.set_ {
        return KeyringUnavailable503;
      }
      keyring := keyring[Canonical(id) := secret];
      secretRef := Some(RefFor(id));
      revision := revision + 1;
      if f.commit {
        Rollback(previousRef, storedRevision);
        var ok := RestoreOrDelete(previousRef, previous, f);
        return if ok then PersistFailed500 else CompensationFailed503;
      }
      return Ok200;
    }

    method DeleteCredential(f: Faults) returns (status: Status)
      modifies this
      ensures Reply(status, Value()) == Delete(old(Value()), id, f)
    {
      var previousRef, storedRevision := secretRef, revision;
      var previous: Option<string> := None;
      var location := Locate(id, previousRef);
      if Given(previousRef) {
        var resolved := Resolve(keyring, id, previousRef, f.get);
        match resolved {
          case Unavailable => return KeyringUnavailable503;
          case Unsupported => return KeyringUnavailable503;
          case SecretMissing =>
          case Found(value) => previous := Some(value);
        }
        if f.delete {
          return KeyringUnavailable503;
        }
        keyring := keyring - {location.value};
      }
      secretRef := None;
      revision := revision + 1;
      if f.commit {
        Rollback(previousRef, storedRevision);
        if previous.Some? {
          if f.restore {
            return CompensationFailed503;
          }
          keyring := keyring[location.value := previous.value];
        }
        return PersistFailed500;
      }
      return Ok200;
    }
  }
}
