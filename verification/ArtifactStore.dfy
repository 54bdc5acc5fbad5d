/**
 The immutable artifact store, backend/app/modules/artifacts/store.py.

 A file system maps names to inodes and inodes to bytes, so the aliasing that a hard link
 creates is real. A writer's commit is five separate steps (close, hash, link, unlink,
 return), and any number of writers interleave them; the classes at the end run the same
 steps in the order of the source.
 */
module ArtifactStore {
  import opened Wrappers
  import opened PyText
  import opened Utf8

  // ---------------------------------------------------------------- the file system

  /** The name of an artifact, or of the hidden partial file of one writer. */
  datatype Path = Final(name: string) | Partial(name: string, uuid: nat)

  datatype Fs = Fs(names: map<Path, nat>, files: map<nat, seq<byte>>, next: nat)

  predicate Sound(fs: Fs) {
    && (forall p :: p in fs.names ==> fs.names[p] in fs.files)
    && (forall i :: i in fs.files ==> i < fs.next)
  }

  /** `os.open` with O_CREAT and O_EXCL on a name that is free. */
  function Create(fs: Fs, p: Path): Fs {
    Fs(fs.names[p := fs.next], fs.files[fs.next := []], fs.next + 1)
  }

  function Append(fs: Fs, inode: nat, bytes: seq<byte>): Fs {
    if inode in fs.files then fs.(files := fs.files[inode := fs.files[inode] + bytes]) else fs
  }

  function Read(fs: Fs, p: Path): Option<seq<byte>> {
    if p in fs.names && fs.names[p] in fs.files then Some(fs.files[fs.names[p]]) else None
  }

  datatype LinkOutcome = Linked(fs: Fs) | NameTaken | LinkFailed

  /** `os.link`: refuses a taken name, and gives the inode a second name otherwise. */
  function Link(fs: Fs, source: Path, target: Path, fault: bool): LinkOutcome {
    if fault || source !in fs.names then LinkFailed
    else if target in fs.names then NameTaken
    else Linked(fs.(names := fs.names[target := fs.names[source]]))
  }

  /** `Path.unlink(missing_ok=True)` with OSError swallowed. */
  function Unlink(fs: Fs, p: Path, fault: bool): Fs {
    if fault then fs else fs.(names := fs.names - {p})
  }

  // ---------------------------------------------------------------- one writer

  datatype Stored = Stored(relativePath: string, sha256: string, byteSize: nat)

  datatype Phase =
    | Writing                  // the handle is open
    | HandleClosed             // inside commit, after file.close()
    | Hashed(stored: Stored)   // inside commit, before os.link
    | Published(stored: Stored)// inside commit, after os.link
    | Refused                  // inside commit, after os.link raised
    | Closing                  // inside close, before the partial is removed
    | Committed(stored: Stored)
    | Aborted                  // closed without a committed artifact

  /** `written` is the history of what the caller wrote, `buffer` what has not reached the inode. */
  datatype Writer = Writer(name: string, uuid: nat, inode: nat, buffer: seq<byte>, written: seq<byte>, phase: Phase)
  {
    function PartialPath(): Path {
      Partial(name, uuid)
    }

    predicate HasPublished() {
      phase.Published? || phase.Committed?
    }

    /** Neither committed nor closed: the partial file is still this writer's. */
    predicate Live() {
      !phase.Committed? && !phase.Aborted?
    }
  }

  datatype Local = Local(fs: Fs, writer: Writer)

  function WriteStep(l: Local, bytes: seq<byte>): Local {
    if !l.writer.phase.Writing? then l
    else l.(writer := l.writer.(buffer := l.writer.buffer + bytes, written := l.writer.written + bytes))
  }

  /** The buffered file may pass its buffer on at any time. */
  function SpillStep(l: Local): Local {
    Local(Append(l.fs, l.writer.inode, l.writer.buffer), l.writer.(buffer := []))
  }

  function CommitCloseStep(l: Local): Local {
    if !l.writer.phase.Writing? then l
    else var s := SpillStep(l); s.(writer := s.writer.(phase := HandleClosed))
  }

  function HashStep(hash: seq<byte> -> string, l: Local): Local {
    if !l.writer.phase.HandleClosed? then l
    else
      match Read(l.fs, l.writer.PartialPath())
      case None => l.(writer := l.writer.(phase := Aborted))
      case Some(bytes) => l.(writer := l.writer.(phase := Hashed(Stored(l.writer.name, hash(bytes), |bytes|))))
  }

  function LinkStep(l: Local, fault: bool): Local {
    if !l.writer.phase.Hashed? then l
    else
      match Link(l.fs, l.writer.PartialPath(), Final(l.writer.name), fault)
      case Linked(fs) => Local(fs, l.writer.(phase := Published(l.writer.phase.stored)))
      case _ => l.(writer := l.writer.(phase := Refused))
  }

  function CleanupStep(l: Local, fault: bool): Local {
    match l.writer.phase
    case Published(stored) =>
      Local(Unlink(l.fs, l.writer.PartialPath(), fault), l.writer.(phase := Committed(stored)))
    case Refused =>
      Local(Unlink(l.fs, l.writer.PartialPath(), fault), l.writer.(phase := Aborted))
    case Closing =>
      Local(Unlink(l.fs, l.writer.PartialPath(), fault), l.writer.(phase := Aborted))
    case _ => l
  }

  /** `close()` up to the unlink; it may be called again on a writer that has been aborted. */
  function CloseStep(l: Local): Local {
    if l.writer.phase.Writing? then
      var s := SpillStep(l); s.(writer := s.writer.(phase := Closing))
    else if l.writer.phase.Aborted? then l.(writer := l.writer.(phase := Closing))
    else l
  }

  // ---------------------------------------------------------------- all writers together

  /** `leaked` collects the partial files whose unlink failed. */
  datatype Store = Store(fs: Fs, writers: map<nat, Writer>, uuids: set<nat>, leaked: set<Path>)

  datatype Action =
    | Begin(id: nat, name: string, uuid: nat)
    | Write(id: nat, bytes: seq<byte>)
    | Spill(id: nat)
    | CommitClose(id: nat)
    | CommitHash(id: nat)
    | CommitLink(id: nat, fault: bool)
    | Cleanup(id: nat, fault: bool)
    | Close(id: nat)

  function LocalStep(hash: seq<byte> -> string, l: Local, a: Action): Local {
    match a
    case Begin(_, _, _) => l
    case Write(_, bytes) => WriteStep(l, bytes)
    case Spill(_) => if l.writer.phase.Writing? then SpillStep(l) else l
    case CommitClose(_) => CommitCloseStep(l)
    case CommitHash(_) => HashStep(hash, l)
    case CommitLink(_, fault) => LinkStep(l, fault)
    case Cleanup(_, fault) => CleanupStep(l, fault)
    case Close(_) => CloseStep(l)
  }

  /** A uuid is drawn at most once, as `uuid4` is taken to guarantee; O_EXCL refuses a taken name. */
  function Step(hash: seq<byte> -> string, s: Store, a: Action): Store {
    if a.Begin? then
      var p := Partial(a.name, a.uuid);
      if a.id in s.writers || a.uuid in s.uuids || p in s.fs.names then s
      else
        Store(Create(s.fs, p), s.writers[a.id := Writer(a.name, a.uuid, s.fs.next, [], [], Writing)],
              s.uuids + {a.uuid}, s.leaked)
    else if a.id !in s.writers then s
    else
      var l := LocalStep(hash, Local(s.fs, s.writers[a.id]), a);
      var unlinkFailed := a.Cleanup? && a.fault && l.writer != s.writers[a.id];
      Store(l.fs, s.writers[a.id := l.writer], s.uuids,
            if unlinkFailed then s.leaked + {l.writer.PartialPath()} else s.leaked)
  }

  function Run(hash: seq<byte> -> string, s: Store, actions: seq<Action>): Store
    decreases |actions|
  {
    if actions == [] then s else Run(hash, Step(hash, s, actions[0]), actions[1..])
  }

  /**
   A store directory as found at start-up: artifacts of earlier runs, and partial files that
   an unlink or a process left behind, whose uuids are not drawn again.
   */
  ghost predicate Initial(s: Store) {
    && Sound(s.fs) && s.writers == map[]
    && (forall p :: p in s.leaked <==> p in s.fs.names && p.Partial?)
    && (forall p :: p in s.leaked ==> p.uuid in s.uuids)
  }

  // ---------------------------------------------------------------- the invariant

  predicate WriterSound(hash: seq<byte> -> string, fs: Fs, w: Writer) {
    && w.inode in fs.files
    && fs.files[w.inode] + w.buffer == w.written
    && (!w.phase.Writing? ==> w.buffer == [])
    && (w.phase.Writing? || w.phase.HandleClosed? || w.phase.Hashed? ==> w.PartialPath() in fs.names)
    && (w.PartialPath() in fs.names ==> fs.names[w.PartialPath()] == w.inode)
    && (w.phase.Hashed? || w.HasPublished() ==> w.phase.stored == Stored(w.name, hash(w.written), |w.written|))
    && (w.HasPublished() ==> Final(w.name) in fs.names && fs.names[Final(w.name)] == w.inode)
  }

  /** A final name leads to a writer's inode only if that writer published it. */
  ghost predicate FinalsSound(s: Store) {
    forall f, id :: Final(f) in s.fs.names && id in s.writers && s.fs.names[Final(f)] == s.writers[id].inode ==>
      s.writers[id].HasPublished() && s.writers[id].name == f
  }

  ghost predicate WritersDistinct(s: Store) {
    forall i, j :: i in s.writers && j in s.writers && i != j ==>
      s.writers[i].inode != s.writers[j].inode && s.writers[i].uuid != s.writers[j].uuid
  }

  predicate Owner(s: Store, p: Path, id: nat) {
    id in s.writers && s.writers[id].Live() && s.writers[id].PartialPath() == p
  }

  /** Every partial file belongs to a live writer, or its unlink failed. */
  ghost predicate PartialsOwned(s: Store) {
    forall p :: p in s.fs.names && p.Partial? ==> p in s.leaked || exists id :: Owner(s, p, id)
  }

  ghost predicate Invariant(hash: seq<byte> -> string, s: Store) {
    && Sound(s.fs)
    && (forall id :: id in s.writers ==> WriterSound(hash, s.fs, s.writers[id]) && s.writers[id].uuid in s.uuids)
    && WritersDistinct(s)
    && FinalsSound(s)
    && PartialsOwned(s)
    && (forall p :: p in s.fs.names && p.Partial? ==> p.uuid in s.uuids)
  }

  lemma InitialInvariant(hash: seq<byte> -> string, s: Store)
    requires Initial(s)
    ensures Invariant(hash, s)
  {
  }

  /** What a step of one writer may do to the shared file system. */
  ghost predicate StaysLocal(before: Local, after: Local) {
    var w := before.writer;
    && after.writer.name == w.name && after.writer.uuid == w.uuid && after.writer.inode == w.inode
    && Sound(after.fs)
    && (forall i :: i in before.fs.files ==>
          i in after.fs.files && (i != w.inode ==> after.fs.files[i] == before.fs.files[i]))
    && (forall p :: p in before.fs.names && p != w.PartialPath() ==>
          p in after.fs.names && after.fs.names[p] == before.fs.names[p])
    && (forall p :: p in after.fs.names && p !in before.fs.names ==>
          p == Final(w.name) && after.fs.names[p] == w.inode && after.writer.HasPublished())
    && (w.HasPublished() ==> after.writer.HasPublished())
    && after.fs.next == before.fs.next
    && after.fs.files.Keys == before.fs.files.Keys
  }

  lemma LocalStepSound(hash: seq<byte> -> string, l: Local, a: Action)
    requires Sound(l.fs) && WriterSound(hash, l.fs, l.writer)
    ensures StaysLocal(l, LocalStep(hash, l, a))
    ensures WriterSound(hash, LocalStep(hash, l, a).fs, LocalStep(hash, l, a).writer)
  {
    match a
    case Begin(_, _, _) => IdleSound(hash, l);
    case Write(_, bytes) => WriteSound(hash, l, bytes);
    case Spill(_) => SpillSound(hash, l); IdleSound(hash, l);
    case CommitClose(_) => CommitCloseSound(hash, l);
    case CommitHash(_) => HashSound(hash, l);
    case CommitLink(_, fault) => LinkSound(hash, l, fault);
    case Cleanup(_, fault) => CleanupSound(hash, l, fault);
    case Close(_) => CloseSound(hash, l);
  }

  lemma IdleSound(hash: seq<byte> -> string, l: Local)
    requires Sound(l.fs) && WriterSound(hash, l.fs, l.writer)
    ensures StaysLocal(l, l)
  {
  }

  /** Passing the buffer on and moving to a phase behind the open handle. */
  lemma PhaseSound(hash: seq<byte> -> string, l: Local, phase: Phase)
    requires Sound(l.fs) && WriterSound(hash, l.fs, l.writer)
    requires l.writer.phase.Writing? && (phase.HandleClosed? || phase.Closing?)
    ensures var s := SpillStep(l);
            StaysLocal(l, s.(writer := s.writer.(phase := phase))) && WriterSound(hash, s.fs, s.writer.(phase := phase))
  {
    SpillSound(hash, l);
  }

  lemma CommitCloseSound(hash: seq<byte> -> string, l: Local)
    requires Sound(l.fs) && WriterSound(hash, l.fs, l.writer)
    ensures StaysLocal(l, CommitCloseStep(l))
    ensures WriterSound(hash, CommitCloseStep(l).fs, CommitCloseStep(l).writer)
  {
    if l.writer.phase.Writing? { PhaseSound(hash, l, HandleClosed); }
  }

  lemma CloseSound(hash: seq<byte> -> string, l: Local)
    requires Sound(l.fs) && WriterSound(hash, l.fs, l.writer)
    ensures StaysLocal(l, CloseStep(l))
    ensures WriterSound(hash, CloseStep(l).fs, CloseStep(l).writer)
  {
    if l.writer.phase.Writing? { PhaseSound(hash, l, Closing); }
  }

  lemma WriteSound(hash: seq<byte> -> string, l: Local, bytes: seq<byte>)
    requires Sound(l.fs) && WriterSound(hash, l.fs, l.writer)
    ensures StaysLocal(l, WriteStep(l, bytes))
    ensures WriterSound(hash, l.fs, WriteStep(l, bytes).writer)
  {
    Regroup(l.fs.files[l.writer.inode], l.writer.buffer, bytes);
  }

  /** Only an open writer changes bytes on disk or its history. */
  lemma ClosedStepKeepsBytes(hash: seq<byte> -> string, l: Local, a: Action)
    requires !l.writer.phase.Writing?
    ensures LocalStep(hash, l, a).fs.files == l.fs.files && LocalStep(hash, l, a).writer.written == l.writer.written
  {
  }

  lemma HashSound(hash: seq<byte> -> string, l: Local)
    requires Sound(l.fs) && WriterSound(hash, l.fs, l.writer)
    ensures StaysLocal(l, HashStep(hash, l))
    ensures WriterSound(hash, HashStep(hash, l).fs, HashStep(hash, l).writer)
  {
    var w := l.writer;
    assert l.fs.files[w.inode] + [] == l.fs.files[w.inode];
  }

  lemma CleanupSound(hash: seq<byte> -> string, l: Local, fault: bool)
    requires Sound(l.fs) && WriterSound(hash, l.fs, l.writer)
    ensures StaysLocal(l, CleanupStep(l, fault))
    ensures WriterSound(hash, CleanupStep(l, fault).fs, CleanupStep(l, fault).writer)
  {
  }

  lemma SpillSound(hash: seq<byte> -> string, l: Local)
    requires Sound(l.fs) && WriterSound(hash, l.fs, l.writer)
    ensures StaysLocal(l, SpillStep(l))
    ensures WriterSound(hash, SpillStep(l).fs, SpillStep(l).writer)
  {
    var s := SpillStep(l);
    assert s.fs.files[l.writer.inode] == l.writer.written;
    assert s.fs.files[l.writer.inode] + [] == l.writer.written;
  }

  lemma LinkSound(hash: seq<byte> -> string, l: Local, fault: bool)
    requires Sound(l.fs) && WriterSound(hash, l.fs, l.writer)
    ensures StaysLocal(l, LinkStep(l, fault))
    ensures WriterSound(hash, LinkStep(l, fault).fs, LinkStep(l, fault).writer)
  {
  }

  lemma OthersSound(hash: seq<byte> -> string, before: Local, after: Local, other: Writer)
    requires StaysLocal(before, after)
    requires WriterSound(hash, before.fs, other)
    requires other.inode != before.writer.inode && other.uuid != before.writer.uuid
    ensures WriterSound(hash, after.fs, other)
  {
  }

  lemma LocalStepInvariant(hash: seq<byte> -> string, s: Store, a: Action)
    requires Invariant(hash, s) && !a.Begin? && a.id in s.writers
    ensures Invariant(hash, Step(hash, s, a))
  {
    var before := Local(s.fs, s.writers[a.id]);
    var after := LocalStep(hash, before, a);
    var t := Step(hash, s, a);
    LocalStepSound(hash, before, a);
    forall id | id in t.writers
      ensures WriterSound(hash, t.fs, t.writers[id]) && t.writers[id].uuid in t.uuids
    {
      if id != a.id { OthersSound(hash, before, after, s.writers[id]); }
    }
    LocalStepFinals(hash, s, a);
    LocalStepPartials(hash, s, a);
  }

  lemma LocalStepFinals(hash: seq<byte> -> string, s: Store, a: Action)
    requires Invariant(hash, s) && !a.Begin? && a.id in s.writers
    requires StaysLocal(Local(s.fs, s.writers[a.id]), LocalStep(hash, Local(s.fs, s.writers[a.id]), a))
    ensures FinalsSound(Step(hash, s, a)) && WritersDistinct(Step(hash, s, a))
  {
    var t := Step(hash, s, a);
    forall f, id | Final(f) in t.fs.names && id in t.writers && t.fs.names[Final(f)] == t.writers[id].inode
      ensures t.writers[id].HasPublished() && t.writers[id].name == f
    {
      assert s.writers[id].inode == t.writers[id].inode;
      if Final(f) in s.fs.names {
        assert s.fs.names[Final(f)] == s.writers[id].inode;
      }
    }
  }

  lemma LocalStepPartials(hash: seq<byte> -> string, s: Store, a: Action)
    requires Invariant(hash, s) && !a.Begin? && a.id in s.writers
    requires StaysLocal(Local(s.fs, s.writers[a.id]), LocalStep(hash, Local(s.fs, s.writers[a.id]), a))
    ensures PartialsOwned(Step(hash, s, a))
    ensures forall p :: p in Step(hash, s, a).fs.names && p.Partial? ==> p.uuid in s.uuids
  {
    var t := Step(hash, s, a);
    var w := s.writers[a.id];
    forall p | p in t.fs.names && p.Partial?
      ensures p in t.leaked || exists id :: Owner(t, p, id)
    {
      assert p in s.fs.names;
      if p !in s.leaked {
        var id :| Owner(s, p, id);
        if id != a.id {
          assert Owner(t, p, id);
        } else if t.writers[id].Live() {
          assert Owner(t, p, id);
        } else {
          assert a.Cleanup? || a.CommitHash?;
        }
      }
    }
  }

  lemma BeginInvariant(hash: seq<byte> -> string, s: Store, a: Action)
    requires Invariant(hash, s) && a.Begin?
    ensures Invariant(hash, Step(hash, s, a))
  {
    var t := Step(hash, s, a);
    if t != s {
      forall id | id in t.writers
        ensures WriterSound(hash, t.fs, t.writers[id]) && t.writers[id].uuid in t.uuids
      {
        if id != a.id { BeginLeavesOthers(hash, s, a, id); }
      }
      BeginPartials(hash, s, a);
    }
  }

  lemma BeginLeavesOthers(hash: seq<byte> -> string, s: Store, a: Action, id: nat)
    requires Invariant(hash, s) && a.Begin? && id in s.writers && Step(hash, s, a) != s
    ensures WriterSound(hash, Step(hash, s, a).fs, s.writers[id])
  {
  }

  lemma BeginPartials(hash: seq<byte> -> string, s: Store, a: Action)
    requires Invariant(hash, s) && a.Begin? && Step(hash, s, a) != s
    ensures PartialsOwned(Step(hash, s, a))
  {
    var t := Step(hash, s, a);
    var p := Partial(a.name, a.uuid);
    assert Owner(t, p, a.id);
    forall q | q in t.fs.names && q.Partial?
      ensures q in t.leaked || exists id :: Owner(t, q, id)
    {
      if q != p && q !in s.leaked {
        var id :| Owner(s, q, id);
        assert Owner(t, q, id);
      }
    }
  }

  lemma StepInvariant(hash: seq<byte> -> string, s: Store, a: Action)
    requires Invariant(hash, s)
    ensures Invariant(hash, Step(hash, s, a))
  {
    if a.Begin? {
      BeginInvariant(hash, s, a);
    } else if a.id in s.writers {
      LocalStepInvariant(hash, s, a);
    }
  }

  lemma {:induction false} RunInvariant(hash: seq<byte> -> string, s: Store, actions: seq<Action>)
    requires Invariant(hash, s)
    ensures Invariant(hash, Run(hash, s, actions))
    decreases |actions|
  {
    if actions != [] {
      StepInvariant(hash, s, actions[0]);
      RunInvariant(hash, Step(hash, s, actions[0]), actions[1..]);
    }
  }

  // ---------------------------------------------------------------- what every run keeps

  lemma StepKeepsFinal(hash: seq<byte> -> string, s: Store, a: Action, f: string)
    requires Invariant(hash, s) && Final(f) in s.fs.names
    ensures var t := Step(hash, s, a);
            && Final(f) in t.fs.names && t.fs.names[Final(f)] == s.fs.names[Final(f)]
            && Read(t.fs, Final(f)) == Read(s.fs, Final(f))
  {
    if !a.Begin? && a.id in s.writers {
      var before := Local(s.fs, s.writers[a.id]);
      LocalStepSound(hash, before, a);
      if s.fs.names[Final(f)] == s.writers[a.id].inode {
        assert s.writers[a.id].HasPublished();
        ClosedStepKeepsBytes(hash, before, a);
      }
    }
  }

  /** A final name, once it exists, keeps its inode and its bytes in every run that follows. */
  lemma {:induction false} FinalNeverChanges(hash: seq<byte> -> string, s: Store, actions: seq<Action>, f: string)
    requires Invariant(hash, s) && Final(f) in s.fs.names
    ensures var t := Run(hash, s, actions);
            && Final(f) in t.fs.names && t.fs.names[Final(f)] == s.fs.names[Final(f)]
            && Read(t.fs, Final(f)) == Read(s.fs, Final(f)) && Read(s.fs, Final(f)).Some?
    decreases |actions|
  {
    if actions != [] {
      StepKeepsFinal(hash, s, actions[0], f);
      StepInvariant(hash, s, actions[0]);
      FinalNeverChanges(hash, Step(hash, s, actions[0]), actions[1..], f);
    }
  }

  /** Once its handle is closed, all a writer wrote is on disk under its inode. */
  lemma WrittenIsOnDisk(hash: seq<byte> -> string, s: Store, id: nat)
    requires Invariant(hash, s) && id in s.writers && !s.writers[id].phase.Writing?
    ensures s.writers[id].inode in s.fs.files && s.fs.files[s.writers[id].inode] == s.writers[id].written
  {
    var w := s.writers[id];
    assert s.fs.files[w.inode] + [] == s.fs.files[w.inode];
  }

  // ---------------------------------------------------------------- what was written

  /** The bytes of the writes of this writer, in order, up to the first action that closes it. */
  function Written(actions: seq<Action>, id: nat): seq<byte>
    decreases |actions|
  {
    if actions == [] then []
    else
      var a, rest := actions[0], actions[1..];
      if a.id != id then Written(rest, id)
      else if a.CommitClose? || a.Close? then []
      else (if a.Write? then a.bytes else []) + Written(rest, id)
  }

  /** Action number k is the one that brings this writer about. */
  predicate BeginsAt(hash: seq<byte> -> string, s: Store, actions: seq<Action>, id: nat, k: nat) {
    && k < |actions| && actions[k].Begin? && actions[k].id == id
    && id !in Run(hash, s, actions[..k]).writers && id in Run(hash, s, actions[..k + 1]).writers
  }

  lemma StepWritten(hash: seq<byte> -> string, s: Store, a: Action, id: nat)
    requires id in s.writers
    ensures id in Step(hash, s, a).writers
    ensures var before, after := s.writers[id], Step(hash, s, a).writers[id];
            && after.name == before.name
            && (after.phase.Writing? <==> before.phase.Writing? && !(a.id == id && (a.CommitClose? || a.Close?)))
            && after.written == before.written
               + if before.phase.Writing? && a.id == id && a.Write? then a.bytes else []
  {
  }

  lemma {:induction false} RunWritten(hash: seq<byte> -> string, s: Store, actions: seq<Action>, id: nat)
    requires id in s.writers
    ensures var t := Run(hash, s, actions);
            && id in t.writers && t.writers[id].name == s.writers[id].name
            && t.writers[id].written == s.writers[id].written
               + if s.writers[id].phase.Writing? then Written(actions, id) else []
    decreases |actions|
  {
    var w := s.writers[id];
    if actions == [] {
      assert w.written + [] == w.written;
    } else {
      var a, rest := actions[0], actions[1..];
      StepWritten(hash, s, a, id);
      RunWritten(hash, Step(hash, s, a), rest, id);
      Regroup(w.written, if a.id == id && a.Write? then a.bytes else [], Written(rest, id));
      assert [] + Written(rest, id) == Written(rest, id);
    }
  }

  lemma {:induction false} RunSplit(hash: seq<byte> -> string, s: Store, actions: seq<Action>, k: nat)
    requires k <= |actions|
    ensures Run(hash, s, actions) == Run(hash, Run(hash, s, actions[..k]), actions[k..])
    decreases k
  {
    if k == 0 {
      assert actions[..0] == [] && actions[0..] == actions;
    } else {
      RunSplit(hash, Step(hash, s, actions[0]), actions[1..], k - 1);
      assert actions[..k][1..] == actions[1..][..k - 1] && actions[1..][k - 1..] == actions[k..];
    }
  }

  lemma {:induction false} WriterBegan(hash: seq<byte> -> string, s: Store, actions: seq<Action>, id: nat)
    returns (k: nat)
    requires id !in s.writers && id in Run(hash, s, actions).writers
    ensures BeginsAt(hash, s, actions, id, k)
    decreases |actions|
  {
    var t, rest := Step(hash, s, actions[0]), actions[1..];
    if id in t.writers {
      k := 0;
      assert actions[..1][1..] == [] && actions[..0] == [];
    } else {
      k := WriterBegan(hash, t, rest, id);
      assert actions[..k + 1][1..] == rest[..k] && actions[..k + 2][1..] == rest[..k + 1];
      k := k + 1;
    }
  }

  /** What a writer has written since it began is exactly the bytes of its writes, for whatever others do in between. */
  lemma WrittenIsTheWrites(hash: seq<byte> -> string, s: Store, actions: seq<Action>, id: nat, k: nat)
    requires BeginsAt(hash, s, actions, id, k)
    ensures var t := Run(hash, s, actions);
            && id in t.writers && t.writers[id].name == actions[k].name
            && t.writers[id].written == Written(actions[k + 1..], id)
  {
    var start := Run(hash, s, actions[..k]);
    RunSplit(hash, s, actions, k + 1);
    RunSplit(hash, s, actions[..k + 1], k);
    assert actions[..k + 1][..k] == actions[..k] && actions[..k + 1][k..] == [actions[k]];
    OneStep(hash, start, actions[k]);
    var begun := Step(hash, start, actions[k]);
    assert begun.writers[id].written == [] && begun.writers[id].phase.Writing?;
    RunWritten(hash, begun, actions[k + 1..], id);
    assert [] + Written(actions[k + 1..], id) == Written(actions[k + 1..], id);
  }

  lemma OneStep(hash: seq<byte> -> string, s: Store, a: Action)
    ensures Run(hash, s, [a]) == Step(hash, s, a)
  {
    assert [a][1..] == [];
  }

  /** A published writer's file and record, in terms of its own history. */
  lemma PublishedHistory(hash: seq<byte> -> string, s: Store, actions: seq<Action>, id: nat)
    requires Initial(s)
    requires id in Run(hash, s, actions).writers && Run(hash, s, actions).writers[id].HasPublished()
    ensures var t := Run(hash, s, actions);
            var w := t.writers[id];
            && Read(t.fs, Final(w.name)) == Some(w.written)
            && w.phase.stored == Stored(w.name, hash(w.written), |w.written|)
  {
    InitialInvariant(hash, s);
    RunInvariant(hash, s, actions);
    WrittenIsOnDisk(hash, Run(hash, s, actions), id);
  }

  /** A writer began with action k, and its final name and record hold exactly the bytes of its writes since. */
  ghost predicate HoldsItsWrites(hash: seq<byte> -> string, s: Store, actions: seq<Action>, id: nat, k: nat)
    requires id in Run(hash, s, actions).writers && Run(hash, s, actions).writers[id].HasPublished()
  {
    && BeginsAt(hash, s, actions, id, k)
    && var t, bytes := Run(hash, s, actions), Written(actions[k + 1..], id);
       && Read(t.fs, Final(actions[k].name)) == Some(bytes)
       && t.writers[id].phase.stored == Stored(actions[k].name, hash(bytes), |bytes|)
  }

  /**
   In every state any interleaving can reach: the final name of a committed writer holds,
   byte for byte, what its writes passed since it began, and its StoredArtifact describes it.
   */
  lemma CommittedBytes(hash: seq<byte> -> string, s: Store, actions: seq<Action>, id: nat)
    requires Initial(s)
    requires id in Run(hash, s, actions).writers && Run(hash, s, actions).writers[id].HasPublished()
    ensures exists k :: HoldsItsWrites(hash, s, actions, id, k)
  {
    var k := WriterBegan(hash, s, actions, id);
    WrittenIsTheWrites(hash, s, actions, id, k);
    PublishedHistory(hash, s, actions, id);
    assert HoldsItsWrites(hash, s, actions, id, k);
  }

  /** No open handle ever leads to an inode that a final name reaches. */
  lemma NoHandleOnFinal(hash: seq<byte> -> string, s: Store, actions: seq<Action>, id: nat, f: string)
    requires Initial(s)
    requires var t := Run(hash, s, actions);
             id in t.writers && t.writers[id].phase.Writing? && Final(f) in t.fs.names
    ensures Run(hash, s, actions).fs.names[Final(f)] != Run(hash, s, actions).writers[id].inode
  {
    InitialInvariant(hash, s);
    RunInvariant(hash, s, actions);
  }

  /** Of all writers that ever raced for a name at most one has committed, and none where the name was taken before. */
  lemma AtMostOneCommits(hash: seq<byte> -> string, s: Store, actions: seq<Action>, i: nat, j: nat)
    requires Initial(s)
    requires var t := Run(hash, s, actions);
             && i in t.writers && j in t.writers && t.writers[i].HasPublished() && t.writers[j].HasPublished()
             && t.writers[i].name == t.writers[j].name
    ensures i == j
    ensures Final(Run(hash, s, actions).writers[i].name) !in s.fs.names
  {
    InitialInvariant(hash, s);
    RunInvariant(hash, s, actions);
    var t := Run(hash, s, actions);
    var f := t.writers[i].name;
    if Final(f) in s.fs.names {
      FinalNeverChanges(hash, s, actions, f);
      WritersAreNew(hash, s.fs.next, s, actions);
    }
  }

  /** No writer holds an inode below n. */
  ghost predicate WritersFrom(n: nat, s: Store) {
    n <= s.fs.next && forall id :: id in s.writers ==> n <= s.writers[id].inode
  }

  /** Writers never hold an inode that existed at start-up. */
  lemma {:induction false} WritersAreNew(hash: seq<byte> -> string, n: nat, s: Store, actions: seq<Action>)
    requires WritersFrom(n, s)
    ensures WritersFrom(n, Run(hash, s, actions))
    decreases |actions|
  {
    if actions != [] {
      var a := actions[0];
      if !a.Begin? && a.id in s.writers { LocalStepKeepsInode(hash, Local(s.fs, s.writers[a.id]), a); }
      assert WritersFrom(n, Step(hash, s, a));
      WritersAreNew(hash, n, Step(hash, s, a), actions[1..]);
    }
  }

  lemma LocalStepKeepsInode(hash: seq<byte> -> string, l: Local, a: Action)
    ensures LocalStep(hash, l, a).fs.next == l.fs.next && LocalStep(hash, l, a).writer.inode == l.writer.inode
  {
  }

  /**
   As long as unlink succeeds, every partial file that was not left over from an earlier run
   belongs to a writer neither committed nor closed.
   */
  lemma PartialsBelongToLiveWriters(hash: seq<byte> -> string, s: Store, actions: seq<Action>, p: Path)
    requires Initial(s)
    requires forall k :: 0 <= k < |actions| ==> !(actions[k].Cleanup? && actions[k].fault)
    requires p in Run(hash, s, actions).fs.names && p.Partial? && p !in s.fs.names
    ensures exists id :: Owner(Run(hash, s, actions), p, id)
  {
    InitialInvariant(hash, s);
    RunInvariant(hash, s, actions);
    NothingLeaks(hash, s, actions);
  }

  lemma {:induction false} NothingLeaks(hash: seq<byte> -> string, s: Store, actions: seq<Action>)
    requires forall k :: 0 <= k < |actions| ==> !(actions[k].Cleanup? && actions[k].fault)
    ensures Run(hash, s, actions).leaked == s.leaked
    decreases |actions|
  {
    if actions != [] {
      NothingLeaks(hash, Step(hash, s, actions[0]), actions[1..]);
    }
  }

  /** Hashing finds the partial file: a commit fails only where `os.link` does. */
  lemma HashNeverFails(hash: seq<byte> -> string, s: Store, actions: seq<Action>, id: nat)
    requires Initial(s)
    requires var t := Run(hash, s, actions); id in t.writers && t.writers[id].phase.HandleClosed?
    ensures var t := Step(hash, Run(hash, s, actions), CommitHash(id));
            var w := t.writers[id];
            w.phase == Hashed(Stored(w.name, hash(w.written), |w.written|))
  {
    InitialInvariant(hash, s);
    RunInvariant(hash, s, actions);
    WrittenIsOnDisk(hash, Run(hash, s, actions), id);
  }

  /** The five steps of one commit with no other writer in between. */
  function CommitAlone(hash: seq<byte> -> string, l: Local, linkFault: bool, unlinkFault: bool): Local {
    CleanupStep(LinkStep(HashStep(hash, CommitCloseStep(l)), linkFault), unlinkFault)
  }

  /**
   An uninterrupted commit succeeds exactly when the final name is free and the link goes
   through; then the final name holds all that was written, otherwise it is as it was. The
   partial name goes away in both cases, and no other name is touched.
   */
  lemma CommitOutcome(hash: seq<byte> -> string, l: Local, linkFault: bool, unlinkFault: bool)
    requires Sound(l.fs) && WriterSound(hash, l.fs, l.writer) && l.writer.phase.Writing?
    ensures var t, w := CommitAlone(hash, l, linkFault, unlinkFault), l.writer;
            && (t.writer.phase.Committed? <==> Final(w.name) !in l.fs.names && !linkFault)
            && (t.writer.phase.Committed? ==> t.writer.phase.stored == Stored(w.name, hash(w.written), |w.written|)
                                              && Read(t.fs, Final(w.name)) == Some(w.written))
            && (!unlinkFault ==> w.PartialPath() !in t.fs.names)
    ensures var t, w := CommitAlone(hash, l, linkFault, unlinkFault), l.writer;
            forall p :: p != w.PartialPath() && (p != Final(w.name) || !t.writer.phase.Committed?) ==>
              (p in t.fs.names <==> p in l.fs.names) && (p in l.fs.names ==> t.fs.names[p] == l.fs.names[p])
  {
    var closed := CommitCloseStep(l);
    SpillSound(hash, l);
    assert closed.fs.files[l.writer.inode] + [] == closed.fs.files[l.writer.inode];
  }

  /** `close` on an open writer: nothing is published, and the partial file goes away. */
  lemma CloseOutcome(hash: seq<byte> -> string, l: Local, unlinkFault: bool)
    requires Sound(l.fs) && WriterSound(hash, l.fs, l.writer) && l.writer.phase.Writing?
    ensures var t, w := CleanupStep(CloseStep(l), unlinkFault), l.writer;
            && t.writer.phase.Aborted?
            && (!unlinkFault ==> w.PartialPath() !in t.fs.names)
            && forall p :: p != w.PartialPath() ==>
                 (p in t.fs.names <==> p in l.fs.names) && (p in l.fs.names ==> t.fs.names[p] == l.fs.names[p])
  {
  }

  /**
   A begin under a new uuid opens an empty partial file, whether or not an artifact of that
   name is there already; it changes no other name and no other writer.
   */
  lemma BeginIff(hash: seq<byte> -> string, s: Store, id: nat, name: string, uuid: nat, p: Path, other: nat)
    requires Sound(s.fs) && id !in s.writers && uuid !in s.uuids
    ensures var t := Step(hash, s, Begin(id, name, uuid));
            && (id in t.writers <==> Partial(name, uuid) !in s.fs.names)
            && (id in t.writers ==>
                  && t.writers[id].phase.Writing? && t.writers[id].name == name && t.writers[id].written == []
                  && t.writers[id].inode !in s.fs.files && Read(t.fs, t.writers[id].PartialPath()) == Some([]))
            && (p != Partial(name, uuid) ==>
                  Read(t.fs, p) == Read(s.fs, p) && (p in t.fs.names <==> p in s.fs.names))
            && (other in s.writers ==> other in t.writers && t.writers[other] == s.writers[other])
  {
  }

  /** The actions of one writer that begins, writes and commits without a fault. */
  function Session(id: nat, name: string, uuid: nat, bytes: seq<byte>): seq<Action> {
    [Begin(id, name, uuid), Write(id, bytes), CommitClose(id), CommitHash(id), CommitLink(id, false),
     Cleanup(id, false)]
  }

  /** An undisturbed session under a free name succeeds: its bytes are there, and its partial file is not. */
  lemma SessionCommits(hash: seq<byte> -> string, s: Store, id: nat, name: string, uuid: nat, bytes: seq<byte>)
    requires Sound(s.fs) && id !in s.writers && uuid !in s.uuids
    requires Final(name) !in s.fs.names && Partial(name, uuid) !in s.fs.names
    ensures var t := Run(hash, s, Session(id, name, uuid, bytes));
            && Read(t.fs, Final(name)) == Some(bytes) && Partial(name, uuid) !in t.fs.names
            && id in t.writers && t.writers[id].phase == Committed(Stored(name, hash(bytes), |bytes|))
  {
    var actions := Session(id, name, uuid, bytes);
    var s2 := Step(hash, Step(hash, s, actions[0]), actions[1]);
    BegunAndWritten(hash, s, id, name, uuid, bytes);
    CommitSteps(hash, s2, id);
    RunSplit(hash, s, actions, 2);
    assert actions[2..] == [CommitClose(id), CommitHash(id), CommitLink(id, false), Cleanup(id, false)];
    assert actions[..2] == [actions[0], actions[1]];
    TwoSteps(hash, s, actions[0], actions[1]);
    CommitOutcome(hash, Local(s2.fs, s2.writers[id]), false, false);
  }

  lemma BegunAndWritten(hash: seq<byte> -> string, s: Store, id: nat, name: string, uuid: nat, bytes: seq<byte>)
    requires Sound(s.fs) && id !in s.writers && uuid !in s.uuids
    requires Final(name) !in s.fs.names && Partial(name, uuid) !in s.fs.names
    ensures var t := Step(hash, Step(hash, s, Begin(id, name, uuid)), Write(id, bytes));
            && id in t.writers && t.writers[id] == Writer(name, uuid, s.fs.next, bytes, bytes, Writing)
            && Sound(t.fs) && WriterSound(hash, t.fs, t.writers[id]) && Final(name) !in t.fs.names
  {
    assert [] + bytes == bytes;
  }

  lemma TwoSteps(hash: seq<byte> -> string, s: Store, a: Action, b: Action)
    ensures Run(hash, s, [a, b]) == Step(hash, Step(hash, s, a), b)
  {
    assert [a, b][1..] == [b];
    OneStep(hash, Step(hash, s, a), b);
  }

  lemma CommitSteps(hash: seq<byte> -> string, s: Store, id: nat)
    requires id in s.writers
    ensures var t := Run(hash, s, [CommitClose(id), CommitHash(id), CommitLink(id, false), Cleanup(id, false)]);
            var l := CommitAlone(hash, Local(s.fs, s.writers[id]), false, false);
            t.fs == l.fs && id in t.writers && t.writers[id] == l.writer
  {
    var a: seq<Action> := [CommitClose(id), CommitHash(id)];
    var b: seq<Action> := [CommitLink(id, false), Cleanup(id, false)];
    var all: seq<Action> := [CommitClose(id), CommitHash(id), CommitLink(id, false), Cleanup(id, false)];
    RunSplit(hash, s, all, 2);
    assert all[..2] == a && all[2..] == b;
    TwoSteps(hash, s, CommitClose(id), CommitHash(id));
    TwoSteps(hash, Run(hash, s, a), CommitLink(id, false), Cleanup(id, false));
  }

  // ---------------------------------------------------------------- verify

  predicate ValidDigest(s: string) {
    |s| == 64 && forall i :: 0 <= i < 64 ==> '0' <= s[i] <= '9' || 'a' <= s[i] <= 'f'
  }

  datatype StoreError = InvalidArtifactDigest | ArtifactAlreadyExists | ArtifactWriterClosed | OsError | NoUniquePartial

  /** `ArtifactStore.verify`; an artifact name always stands for a regular file here. */
  function Verify(hash: seq<byte> -> string, fs: Fs, name: string, sha256: string): Result<bool, StoreError> {
    if !ValidDigest(sha256) then Err(InvalidArtifactDigest)
    else
      match Read(fs, Final(name))
      case None => Ok(false)
      case Some(bytes) => Ok(hash(bytes) == sha256)
  }

  /** True exactly for the digest of an artifact that is there; an error exactly for what is no digest. */
  lemma VerifyIff(hash: seq<byte> -> string, fs: Fs, name: string, sha256: string)
    ensures Verify(hash, fs, name, sha256) == Err(InvalidArtifactDigest) <==> !ValidDigest(sha256)
    ensures Verify(hash, fs, name, sha256) == Ok(true) <==>
            ValidDigest(sha256) && exists bytes :: Read(fs, Final(name)) == Some(bytes) && hash(bytes) == sha256
  {
    if Read(fs, Final(name)).Some? {
      assert Read(fs, Final(name)) == Some(Read(fs, Final(name)).value);
    }
  }

  ghost predicate Injective(hash: seq<byte> -> string) {
    forall a, b :: hash(a) == hash(b) ==> a == b
  }

  /** Whatever happens after a commit, verify answers for exactly the digest the commit returned. */
  lemma CommittedVerifies(hash: seq<byte> -> string, s: Store, before: seq<Action>, after: seq<Action>, id: nat,
                          sha256: string)
    requires Initial(s)
    requires id in Run(hash, s, before).writers && Run(hash, s, before).writers[id].HasPublished()
    requires ValidDigest(sha256)
    ensures var t := Run(hash, s, before);
            Verify(hash, Run(hash, t, after).fs, t.writers[id].name, sha256)
            == Ok(sha256 == t.writers[id].phase.stored.sha256)
  {
    InitialInvariant(hash, s);
    RunInvariant(hash, s, before);
    PublishedHistory(hash, s, before, id);
    FinalNeverChanges(hash, Run(hash, s, before), after, Run(hash, s, before).writers[id].name);
  }

  // ---------------------------------------------------------------- the classes of the source

  const CHUNK_SIZE: nat := 1024 * 1024

  /** `_sha256_file`: chunks fed to the hash object one after another. */
  method Sha256File(hash: seq<byte> -> string, content: seq<byte>) returns (digest: string, byteSize: nat)
    ensures digest == hash(content) && byteSize == |content|
  {
    var fed: seq<byte> := [];
    byteSize := 0;
    while byteSize < |content|
      invariant byteSize <= |content| && fed == content[..byteSize]
    {
      var end := if byteSize + CHUNK_SIZE < |content| then byteSize + CHUNK_SIZE else |content|;
      var chunk := content[byteSize..end];
      assert content[..end] == content[..byteSize] + chunk;
      byteSize := byteSize + |chunk|;
      fed := fed + chunk;
    }
    assert content[..|content|] == content;
    digest := hash(fed);
  }

  class Disk {
    var names: map<Path, nat>
    var files: map<nat, seq<byte>>
    var next: nat

    ghost function Value(): Fs
      reads this
    {
      Fs(names, files, next)
    }

    constructor ()
      ensures Value() == Fs(map[], map[], 0)
    {
      names, files, next := map[], map[], 0;
    }

    method OpenExclusive(p: Path) returns (inode: Option<nat>)
      modifies this
      ensures old(p in names) ==> inode == None && Value() == old(Value())
      ensures old(p !in names) ==> inode == Some(old(next)) && Value() == Create(old(Value()), p)
    {
      if p in names {
        return None;
      }
      inode := Some(next);
      names := names[p := next];
      files := files[next := []];
      next := next + 1;
    }

    method AppendTo(inode: nat, bytes: seq<byte>)
      modifies this
      ensures Value() == Append(old(Value()), inode, bytes)
    {
      if inode in files {
        files := files[inode := files[inode] + bytes];
      }
    }

    method HardLink(source: Path, target: Path, fault: bool) returns (error: Option<StoreError>)
      modifies this
      ensures match Link(old(Value()), source, target, fault)
              case Linked(fs) => error == None && Value() == fs
              case NameTaken => error == Some(ArtifactAlreadyExists) && Value() == old(Value())
              case LinkFailed => error == Some(OsError) && Value() == old(Value())
    {
      if fault || source !in names {
        return Some(OsError);
      }
      if target in names {
        return Some(ArtifactAlreadyExists);
      }
      names := names[target := names[source]];
      return None;
    }

    method Remove(p: Path, fault: bool)
      modifies this
      ensures Value() == Unlink(old(Value()), p, fault)
    {
      if !fault {
        names := names - {p};
      }
    }
  }

  /** The index of the first candidate whose partial name is free; |uuids| when all are taken. */
  function FirstFree(names: map<Path, nat>, name: string, uuids: seq<nat>): nat {
    if uuids == [] || Partial(name, uuids[0]) !in names then 0 else 1 + FirstFree(names, name, uuids[1..])
  }

  /** All candidates before the first free one are taken, and it is free. */
  lemma {:induction false} FirstFreeIs(names: map<Path, nat>, name: string, uuids: seq<nat>)
    ensures var k := FirstFree(names, name, uuids);
            && k <= |uuids| && (forall i :: 0 <= i < k ==> Partial(name, uuids[i]) in names)
            && (k < |uuids| ==> Partial(name, uuids[k]) !in names)
  {
    if uuids != [] && Partial(name, uuids[0]) in names {
      FirstFreeIs(names, name, uuids[1..]);
      var k := FirstFree(names, name, uuids);
      forall i | 0 <= i < k ensures Partial(name, uuids[i]) in names {
        if i > 0 { assert uuids[i] == uuids[1..][i - 1]; }
      }
    }
  }

  lemma {:induction false} FirstFreeSkip(names: map<Path, nat>, name: string, uuids: seq<nat>, k: nat)
    requires k <= |uuids|
    requires forall i :: 0 <= i < k ==> Partial(name, uuids[i]) in names
    ensures FirstFree(names, name, uuids) == k + FirstFree(names, name, uuids[k..])
  {
    if k > 0 {
      FirstFreeSkip(names, name, uuids[1..], k - 1);
      assert uuids[1..][k - 1..] == uuids[k..];
    }
  }

  class ArtifactWriter {
    const disk: Disk
    const name: string
    const uuid: nat
    const inode: nat
    var buffer: seq<byte>
    var closed: bool
    var committed: Option<Stored>
    ghost var written: seq<byte>

    ghost function Value(): Writer
      reads this
    {
      Writer(name, uuid, inode, buffer, written,
             if committed.Some? then Committed(committed.value) else if closed then Aborted else Writing)
    }

    ghost function Both(): Local
      reads this, disk
    {
      Local(disk.Value(), Value())
    }

    constructor (disk: Disk, name: string, uuid: nat, inode: nat)
      ensures this.disk == disk
      ensures Value() == Writer(name, uuid, inode, [], [], Writing)
    {
      this.disk, this.name, this.uuid, this.inode := disk, name, uuid, inode;
      buffer, closed, committed, written := [], false, None, [];
    }

    /** A write to the open handle; a closed one raises. */
    method Write(bytes: seq<byte>) returns (ok: bool)
      requires Value().phase.Writing? || Value().phase.Aborted? || Value().phase.Committed?
      modifies this
      ensures ok == old(Value()).phase.Writing?
      ensures ok ==> written == old(written) + bytes && buffer == old(buffer) + bytes
      ensures !ok ==> Value() == old(Value())
      ensures disk.Value() == old(disk.Value())
      ensures Both() == WriteStep(old(Both()), bytes)
    {
      if closed || committed.Some? {
        return false;
      }
      buffer := buffer + bytes;
      written := written + bytes;
      return true;
    }

    method CloseHandle()
      requires !closed && committed == None
      modifies this, disk
      ensures closed && committed == None && buffer == [] && written == old(written)
      ensures disk.Value() == Append(old(disk.Value()), inode, old(buffer))
    {
      disk.AppendTo(inode, buffer);
      buffer := [];
      closed := true;
    }

    /** The five steps of `commit` in a row; `linkFault` and `unlinkFault` are operating system errors. */
    method Commit(hash: seq<byte> -> string, linkFault: bool, unlinkFault: bool) returns (r: Result<Stored, StoreError>)
      modifies this, disk
      ensures old(Value()).phase.Committed? ==> r == Ok(old(Value()).phase.stored) && Both() == old(Both())
      ensures old(Value()).phase.Aborted? ==> r == Err(ArtifactWriterClosed) && Both() == old(Both())
      ensures old(Value()).phase.Writing? ==>
                Both() == CommitAlone(hash, old(Both()), linkFault, unlinkFault)
      ensures old(Value()).phase.Writing? ==>
                if Value().phase.Committed? then r == Ok(Value().phase.stored) else r.Err?
      ensures old(Value()).phase.Writing? && old(Read(disk.Value(), Partial(name, uuid))).Some? ==>
                (r.Err? <==> linkFault || old(Final(name) in disk.names))
                && (r.Err? ==> r.error == if linkFault then OsError else ArtifactAlreadyExists)
      ensures old(Value()).phase.Writing? && old(Read(disk.Value(), Partial(name, uuid))).None? ==> r == Err(OsError)
    {
      if committed.Some? {
        return Ok(committed.value);
      }
      if closed {
        return Err(ArtifactWriterClosed);
      }
      ghost var start := Both();
      CloseHandle();
      var partial := Partial(name, uuid);
      if partial !in disk.names || disk.names[partial] !in disk.files {
        return Err(OsError);
      }
      var digest, byteSize := Sha256File(hash, disk.files[disk.names[partial]]);
      var stored := Stored(name, digest, byteSize);
      ghost var hashed := HashStep(hash, CommitCloseStep(start));
      assert hashed == Local(disk.Value(), start.writer.(buffer := [], phase := Hashed(stored)));
      var error := disk.HardLink(partial, Final(name), linkFault);
      disk.Remove(partial, unlinkFault);
      if error.Some? {
        return Err(error.value);
      }
      committed := Some(stored);
      return Ok(stored);
    }

    method Close(unlinkFault: bool)
      modifies this, disk
      ensures Both() == CleanupStep(CloseStep(old(Both())), unlinkFault)
    {
      if !closed && committed == None {
        CloseHandle();
      }
      if committed == None {
        disk.Remove(Partial(name, uuid), unlinkFault);
      }
    }
  }

  class ArtifactStore {
    const disk: Disk

    constructor (disk: Disk)
      ensures this.disk == disk
    {
      this.disk := disk;
    }

    /** `verify` */
    method VerifyArtifact(hash: seq<byte> -> string, name: string, sha256: string) returns (r: Result<bool, StoreError>)
      ensures r == Verify(hash, disk.Value(), name, sha256)
    {
      if !ValidDigest(sha256) {
        return Err(InvalidArtifactDigest);
      }
      if Final(name) !in disk.names || disk.names[Final(name)] !in disk.files {
        return Ok(false);
      }
      var digest, _ := Sha256File(hash, disk.files[disk.names[Final(name)]]);
      return Ok(digest == sha256);
    }

    /** `begin`: up to a hundred uuids are tried until one names no file. */
    method Begin(name: string, uuids: seq<nat>) returns (r: Result<ArtifactWriter, StoreError>)
      requires |uuids| == 100
      modifies disk
      ensures var k := FirstFree(old(disk.names), name, uuids);
              if k < 100 then
                && r.Ok? && fresh(r.value) && r.value.disk == disk
                && r.value.Value() == Writer(name, uuids[k], old(disk.next), [], [], Writing)
                && disk.Value() == Create(old(disk.Value()), Partial(name, uuids[k]))
              else r == Err(NoUniquePartial) && disk.Value() == old(disk.Value())
    {
      for k := 0 to 100
        invariant disk.Value() == old(disk.Value())
        invariant forall i :: 0 <= i < k ==> Partial(name, uuids[i]) in disk.names
      {
        var inode := disk.OpenExclusive(Partial(name, uuids[k]));
        if inode.Some? {
          FirstFreeSkip(old(disk.names), name, uuids, k);
          var writer := new ArtifactWriter(disk, name, uuids[k], inode.value);
          return Ok(writer);
        }
      }
      FirstFreeSkip(disk.names, name, uuids, 100);
      return Err(NoUniquePartial);
    }
  }
}
