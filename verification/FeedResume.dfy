/**
 Exactly-once resumption of the event feed: the events of a reply are sent one by one, and
 a connection may be cut after any of them. A client that always reconnects with the
 sequence id it received last gets the event of every source row once, in growing order,
 however source rows are added and updated in between. A filter on the entity type, as
 the job endpoint applies it (backend/app/api/jobs.py), keeps this for the wanted types.
 */
module FeedResume {
  import opened Wrappers
  import opened PyText
  import opened EventFeed
  import Decimal

  type Key = (nat, Ref)

  function WantedRows(want: string -> bool, rows: seq<LogRow>): seq<LogRow> {
    if rows == [] then []
    else
      var last := rows[|rows| - 1];
      WantedRows(want, rows[..|rows| - 1]) + if want(last.ref.kind) then [last] else []
  }

  function WantedEvents<P>(want: string -> bool, events: seq<Event<P>>): seq<Event<P>> {
    if events == [] then []
    else
      var last := events[|events| - 1];
      WantedEvents(want, events[..|events| - 1]) + if want(last.ref.kind) then [last] else []
  }

  function EventKeys<P>(events: seq<Event<P>>): (keys: seq<Key>)
    ensures |keys| == |events|
    ensures forall i :: 0 <= i < |events| ==> keys[i] == (events[i].sequence, events[i].ref)
  {
    seq(|events|, i requires 0 <= i < |events| => (events[i].sequence, events[i].ref))
  }

  function RowKeys(rows: seq<LogRow>): (keys: seq<Key>)
    ensures |keys| == |rows|
    ensures forall i :: 0 <= i < |rows| ==> keys[i] == (rows[i].sequence, rows[i].ref)
  {
    seq(|rows|, i requires 0 <= i < |rows| => (rows[i].sequence, rows[i].ref))
  }

  // ---------------------------------------------------------------- server and client

  /** `seen` records how far into the log the events reach that the client has received. */
  datatype World<P> = World(
    sources: seq<Source<P>>, log: seq<LogRow>, cursor: Option<string>, received: seq<Event<P>>, seen: nat)

  /** A connection is cut after `delivered` events, or ends when it has sent them all. */
  datatype Action<P> = AddSource(source: Source<P>) | UpdateSource(ref: Ref, content: P) | Connect(delivered: nat)

  /** The `id` field a client gets is `str(sequence_id)`; what it sends back goes through `int`. */
  function CursorValue(other: string -> Option<int>, cursor: Option<string>): Option<int> {
    if cursor.None? then None else Decimal.PythonInt(other, cursor.value)
  }

  function Updated<P>(sources: seq<Source<P>>, ref: Ref, content: P): (r: seq<Source<P>>)
    ensures |r| == |sources| && forall i :: 0 <= i < |r| ==> r[i].ref == sources[i].ref
  {
    seq(|sources|, i requires 0 <= i < |sources| =>
      if sources[i].ref == ref then sources[i].(content := content) else sources[i])
  }

  /** The events the server sends to a client that connects now. */
  function Reply<P>(other: string -> Option<int>, want: string -> bool, w: World<P>): seq<Event<P>> {
    WantedEvents(want, Replay(w.sources, w.log, CursorValue(other, w.cursor)))
  }

  /** The first k elements, or all when there are fewer. */
  function Prefix<T>(xs: seq<T>, k: nat): (r: seq<T>)
    ensures |r| <= |xs| && |r| <= k
  {
    if k < |xs| then xs[..k] else xs
  }

  /** How many rows stand before the wanted row number k, or all when there is none. */
  function Reach(want: string -> bool, rows: seq<LogRow>, k: nat): (r: nat)
    ensures r <= |rows|
  {
    if k >= |WantedRows(want, rows)| then |rows| else Reach(want, rows[..|rows| - 1], k)
  }

  function Step<P>(other: string -> Option<int>, want: string -> bool, w: World<P>, a: Action<P>): World<P> {
    match a
    case AddSource(source) =>
      if source.ref.kind !in KINDS || Find(w.sources, source.ref).Some? then w
      else w.(sources := w.sources + [source])
    case UpdateSource(ref, content) => w.(sources := Updated(w.sources, ref, content))
    case Connect(delivered) => Connected(want, w, Synced(w.sources, w.log), Prefix(Reply(other, want, w), delivered))
  }

  /** What a connection leaves behind that delivered these events. */
  function Connected<P>(want: string -> bool, w: World<P>, log: seq<LogRow>, events: seq<Event<P>>): World<P> {
    World(w.sources, log,
          if events == [] then w.cursor else Some(Decimal.Show(events[|events| - 1].sequence)),
          w.received + events,
          if w.seen <= |log| then w.seen + Reach(want, log[w.seen..], |events|) else w.seen)
  }

  function Run<P>(other: string -> Option<int>, want: string -> bool, w: World<P>, actions: seq<Action<P>>): World<P>
    decreases |actions|
  {
    if actions == [] then w else Run(other, want, Step(other, want, w, actions[0]), actions[1..])
  }

  ghost predicate TablesSound<P>(sources: seq<Source<P>>, log: seq<LogRow>) {
    && RefsDistinct(sources) && KindsKnown(sources)
    && Ascending(log) && LoggedOnce(log) && LogFromSources(sources, log)
  }

  /** Any tables as found at start-up, and a client that has received nothing. */
  ghost predicate Initial<P>(w: World<P>) {
    TablesSound(w.sources, w.log) && w.cursor == None && w.received == [] && w.seen == 0
  }

  function LastWanted(want: string -> bool, rows: seq<LogRow>): Option<nat> {
    if rows == [] then None
    else if want(rows[|rows| - 1].ref.kind) then Some(rows[|rows| - 1].sequence)
    else LastWanted(want, rows[..|rows| - 1])
  }

  /** The client has received the wanted rows of the log as far as it has seen it, and holds the id of the last one. */
  ghost predicate ClientSound<P>(want: string -> bool, w: World<P>, log: seq<LogRow>) {
    && w.seen <= |log|
    && EventKeys(w.received) == RowKeys(WantedRows(want, log[..w.seen]))
    && w.cursor == Printed(LastWanted(want, log[..w.seen]))
  }

  function Printed(last: Option<nat>): Option<string> {
    if last.None? then None else Some(Decimal.Show(last.value))
  }

  ghost predicate Invariant<P>(want: string -> bool, w: World<P>) {
    TablesSound(w.sources, w.log) && ClientSound(want, w, w.log)
  }

  // ---------------------------------------------------------------- what a cursor leaves out

  lemma {:induction false} LastWantedIsLatest(want: string -> bool, rows: seq<LogRow>, i: nat)
    requires Ascending(rows) && i < |rows| && want(rows[i].ref.kind)
    ensures LastWanted(want, rows).Some? && rows[i].sequence <= LastWanted(want, rows).value
  {
    var n := |rows| - 1;
    if !want(rows[n].ref.kind) {
      assert rows[..n][i] == rows[i];
      LastWantedIsLatest(want, rows[..n], i);
    }
  }

  lemma {:induction false} LastWantedIsARow(want: string -> bool, rows: seq<LogRow>)
    requires LastWanted(want, rows).Some?
    ensures exists i :: 0 <= i < |rows| && rows[i].sequence == LastWanted(want, rows).value
  {
    var n := |rows| - 1;
    if want(rows[n].ref.kind) {
      assert rows[n].sequence == LastWanted(want, rows).value;
    } else {
      LastWantedIsARow(want, rows[..n]);
      var i :| 0 <= i < n && rows[..n][i].sequence == LastWanted(want, rows[..n]).value;
      assert rows[i].sequence == LastWanted(want, rows).value;
    }
  }

  lemma {:induction false} WantedRowsNone(want: string -> bool, rows: seq<LogRow>)
    requires forall i :: 0 <= i < |rows| ==> !want(rows[i].ref.kind)
    ensures WantedRows(want, rows) == []
  {
    if rows != [] { WantedRowsNone(want, rows[..|rows| - 1]); }
  }

  function AsCursor(last: Option<nat>): Option<int> {
    if last.None? then None else Some(last.value)
  }

  /** Behind the last wanted row of what was seen, nothing seen is wanted. */
  lemma NothingOldIsWanted(want: string -> bool, rows: seq<LogRow>)
    requires Ascending(rows)
    ensures WantedRows(want, Slice(rows, AsCursor(LastWanted(want, rows)))) == []
  {
    var after := AsCursor(LastWanted(want, rows));
    var slice := Slice(rows, after);
    forall i | 0 <= i < |slice| ensures !want(slice[i].ref.kind) {
      SliceHolds(rows, after, slice[i]);
      assert slice[i] in slice;
      var k :| 0 <= k < |rows| && rows[k] == slice[i];
      if want(rows[k].ref.kind) { LastWantedIsLatest(want, rows, k); }
    }
    WantedRowsNone(want, slice);
  }

  /** The wanted rows behind the cursor are the wanted rows that arrived after the last connection. */
  lemma {:induction false} CursorLeavesTheNew(want: string -> bool, log: seq<LogRow>, m: nat)
    requires Ascending(log) && m <= |log|
    ensures WantedRows(want, Slice(log, AsCursor(LastWanted(want, log[..m])))) == WantedRows(want, log[m..])
    decreases |log|
  {
    var n := |log| - 1;
    if m == |log| {
      assert log[..m] == log && log[m..] == [];
      NothingOldIsWanted(want, log);
    } else {
      var init := log[..n];
      var after := AsCursor(LastWanted(want, log[..m]));
      assert init[..m] == log[..m];
      assert log[m..] == init[m..] + [log[n]];
      CursorLeavesTheNew(want, init, m);
      NewRowIsAfter(want, log, m);
      WantedSnoc(want, Slice(init, after), log[n]);
      WantedSnoc(want, init[m..], log[n]);
    }
  }

  lemma NewRowIsAfter(want: string -> bool, log: seq<LogRow>, m: nat)
    requires Ascending(log) && m < |log|
    ensures var after := AsCursor(LastWanted(want, log[..m]));
            Slice(log, after) == Slice(log[..|log| - 1], after) + [log[|log| - 1]]
  {
    if LastWanted(want, log[..m]).Some? {
      LastWantedIsARow(want, log[..m]);
      var i :| 0 <= i < m && log[..m][i].sequence == LastWanted(want, log[..m]).value;
      assert log[i].sequence < log[|log| - 1].sequence;
    }
    assert After(log[|log| - 1], AsCursor(LastWanted(want, log[..m])));
  }

  lemma WantedSnoc(want: string -> bool, rows: seq<LogRow>, row: LogRow)
    ensures WantedRows(want, rows + [row]) == WantedRows(want, rows) + if want(row.ref.kind) then [row] else []
  {
    assert (rows + [row])[..|rows|] == rows;
  }

  lemma {:induction false} WantedAppend(want: string -> bool, a: seq<LogRow>, b: seq<LogRow>)
    ensures WantedRows(want, a + b) == WantedRows(want, a) + WantedRows(want, b)
  {
    if b == [] {
      assert a + b == a;
    } else {
      var init, last := b[..|b| - 1], b[|b| - 1];
      WantedAppend(want, a, init);
      assert a + b == (a + init) + [last];
      WantedSnoc(want, a + init, last);
      Regroup(WantedRows(want, a), WantedRows(want, init), if want(last.ref.kind) then [last] else []);
    }
  }

  lemma {:induction false} LastWantedAppend(want: string -> bool, a: seq<LogRow>, b: seq<LogRow>)
    ensures LastWanted(want, a + b) == if WantedRows(want, b) == [] then LastWanted(want, a) else LastWanted(want, b)
    ensures WantedRows(want, b) == [] <==> LastWanted(want, b).None?
    ensures var rows := WantedRows(want, b);
            rows != [] ==> LastWanted(want, b).value == rows[|rows| - 1].sequence
  {
    if b == [] {
      assert a + b == a;
    } else {
      var n := |b| - 1;
      LastWantedAppend(want, a, b[..n]);
      assert (a + b)[..|a + b| - 1] == a + b[..n];
    }
  }

  // ---------------------------------------------------------------- events of rows

  predicate RowsKnown<P>(sources: seq<Source<P>>, rows: seq<LogRow>) {
    forall i :: 0 <= i < |rows| ==> rows[i].ref.kind in KINDS && Find(sources, rows[i].ref).Some?
  }

  lemma {:induction false} EventsOfRows<P>(want: string -> bool, sources: seq<Source<P>>, rows: seq<LogRow>)
    requires RowsKnown(sources, rows)
    ensures EventKeys(WantedEvents(want, PerRow(sources, rows))) == RowKeys(WantedRows(want, rows))
  {
    if rows != [] {
      var n := |rows| - 1;
      EventsOfRows(want, sources, rows[..n]);
      var before := PerRow(sources, rows[..n]);
      var event := RowEvent(sources, rows[n])[0];
      assert PerRow(sources, rows) == before + [event];
      assert (before + [event])[..|before|] == before;
    }
  }

  lemma LoggedKindsKnown<P>(sources: seq<Source<P>>, log: seq<LogRow>, after: Option<int>)
    requires KindsKnown(sources) && LogFromSources(sources, log)
    ensures RowsKnown(sources, Slice(log, after))
  {
    var slice := Slice(log, after);
    forall i | 0 <= i < |slice| ensures slice[i].ref.kind in KINDS && Find(sources, slice[i].ref).Some? {
      SliceHolds(log, after, slice[i]);
      assert slice[i] in slice;
      var k :| 0 <= k < |log| && log[k] == slice[i];
      FindIsSource(sources, log[k].ref);
    }
  }

  // ---------------------------------------------------------------- the invariant

  /** The rows up to the reach of k hold exactly the first k wanted rows. */
  lemma {:induction false} ReachTakes(want: string -> bool, rows: seq<LogRow>, k: nat)
    requires k <= |WantedRows(want, rows)|
    ensures WantedRows(want, rows[..Reach(want, rows, k)]) == WantedRows(want, rows)[..k]
  {
    var wanted := WantedRows(want, rows);
    if k == |wanted| {
      assert rows[..|rows|] == rows && wanted[..k] == wanted;
    } else {
      var init := rows[..|rows| - 1];
      ReachTakes(want, init, k);
      assert init[..Reach(want, init, k)] == rows[..Reach(want, init, k)];
      assert WantedRows(want, init)[..k] == wanted[..k];
    }
  }

  lemma ConnectInvariant<P>(other: string -> Option<int>, want: string -> bool, w: World<P>, delivered: nat)
    requires Invariant(want, w)
    ensures Invariant(want, Step(other, want, w, Connect(delivered)))
  {
    var log := Synced(w.sources, w.log);
    SyncSound(want, w, log);
    ReplyIsTheNew(other, want, w);
    DeliveredSound(want, w, log, Reply(other, want, w), Prefix(Reply(other, want, w), delivered));
  }

  /** A sync keeps the tables and what the client has seen of the log. */
  lemma SyncSound<P>(want: string -> bool, w: World<P>, log: seq<LogRow>)
    requires Invariant(want, w) && log == Synced(w.sources, w.log)
    ensures TablesSound(w.sources, log) && ClientSound(want, w, log)
  {
    SyncBackfills(w.sources, w.log);
    assert log[..w.seen] == w.log[..w.seen];
  }

  /** The reply to a client consists of the wanted rows behind what it has received, whatever it missed. */
  lemma ReplyIsTheNew<P>(other: string -> Option<int>, want: string -> bool, w: World<P>)
    requires Invariant(want, w)
    ensures var log := Synced(w.sources, w.log);
            |log| >= w.seen && EventKeys(Reply(other, want, w)) == RowKeys(WantedRows(want, log[w.seen..]))
  {
    var log := Synced(w.sources, w.log);
    SyncBackfills(w.sources, w.log);
    assert log[..w.seen] == w.log[..w.seen];
    CursorSurvives(other, want, w);
    ReplayIsTheNew(want, w.sources, log, w.seen);
  }

  /** Any prefix of the reply may get through. */
  lemma DeliveredSound<P>(want: string -> bool, w: World<P>, log: seq<LogRow>, reply: seq<Event<P>>,
                              events: seq<Event<P>>)
    requires ClientSound(want, w, log)
    requires EventKeys(reply) == RowKeys(WantedRows(want, log[w.seen..]))
    requires |events| <= |reply| && events == reply[..|events|]
    ensures ClientSound(want, Connected(want, w, log, events), log)
  {
    var m, k := w.seen, |events|;
    var end := m + Reach(want, log[m..], k);
    DeliveredRows(want, log, m, reply, k);
    assert log[..end][..m] == log[..m];
    NewlyReceived(want, log[..end], m, w.received, events);
  }

  /** The first k events of the reply are the wanted rows up to their reach. */
  lemma DeliveredRows<P>(want: string -> bool, log: seq<LogRow>, m: nat, reply: seq<Event<P>>, k: nat)
    requires m <= |log| && EventKeys(reply) == RowKeys(WantedRows(want, log[m..])) && k <= |reply|
    ensures var end := m + Reach(want, log[m..], k);
            EventKeys(reply[..k]) == RowKeys(WantedRows(want, log[..end][m..]))
  {
    var since := log[m..];
    var reach := Reach(want, since, k);
    KeysPrefix(reply, WantedRows(want, since), k);
    ReachTakes(want, since, k);
    assert log[..m + reach][m..] == since[..reach];
  }

  lemma KeysPrefix<P>(events: seq<Event<P>>, rows: seq<LogRow>, k: nat)
    requires EventKeys(events) == RowKeys(rows) && k <= |events|
    ensures |events| == |rows| && EventKeys(events[..k]) == RowKeys(rows[..k])
  {
    assert |EventKeys(events)| == |RowKeys(rows)|;
    forall i | 0 <= i < k ensures EventKeys(events[..k])[i] == RowKeys(rows[..k])[i] {
      assert EventKeys(events)[i] == RowKeys(rows)[i];
    }
  }

  /** What was received before and the new events together are the wanted rows of the log. */
  lemma NewlyReceived<P>(want: string -> bool, log: seq<LogRow>, m: nat, received: seq<Event<P>>, events: seq<Event<P>>)
    requires m <= |log|
    requires EventKeys(received) == RowKeys(WantedRows(want, log[..m]))
    requires EventKeys(events) == RowKeys(WantedRows(want, log[m..]))
    ensures EventKeys(received + events) == RowKeys(WantedRows(want, log))
    ensures LastWanted(want, log) ==
            if events == [] then LastWanted(want, log[..m]) else Some(events[|events| - 1].sequence)
  {
    var before, since := log[..m], log[m..];
    assert log == before + since;
    WantedAppend(want, before, since);
    LastWantedAppend(want, before, since);
    KeysAppend(received, events, WantedRows(want, before), WantedRows(want, since));
  }

  /** The id a client received and sends back means the sequence number it was printed from. */
  lemma CursorSurvives<P>(other: string -> Option<int>, want: string -> bool, w: World<P>)
    requires Invariant(want, w)
    ensures CursorValue(other, w.cursor) == AsCursor(LastWanted(want, w.log[..w.seen]))
  {
    var last := LastWanted(want, w.log[..w.seen]);
    if last.Some? { Decimal.ShowValue(last.value); }
  }

  /** What a reconnecting client is sent: the wanted rows logged since it was last connected. */
  lemma ReplayIsTheNew<P>(want: string -> bool, sources: seq<Source<P>>, log: seq<LogRow>, m: nat)
    requires KindsKnown(sources) && LogFromSources(sources, log) && Ascending(log) && m <= |log|
    ensures var after := AsCursor(LastWanted(want, log[..m]));
            EventKeys(WantedEvents(want, PerRow(sources, Slice(log, after)))) == RowKeys(WantedRows(want, log[m..]))
  {
    var after := AsCursor(LastWanted(want, log[..m]));
    LoggedKindsKnown(sources, log, after);
    EventsOfRows(want, sources, Slice(log, after));
    CursorLeavesTheNew(want, log, m);
  }

  lemma KeysAppend<P>(received: seq<Event<P>>, events: seq<Event<P>>, before: seq<LogRow>, since: seq<LogRow>)
    requires EventKeys(received) == RowKeys(before) && EventKeys(events) == RowKeys(since)
    ensures EventKeys(received + events) == RowKeys(before + since)
    ensures |events| == |since|
    ensures events != [] ==> events[|events| - 1].sequence == since[|since| - 1].sequence
  {
    assert EventKeys(received + events) == EventKeys(received) + EventKeys(events);
    assert RowKeys(before + since) == RowKeys(before) + RowKeys(since);
    assert |EventKeys(events)| == |RowKeys(since)|;
    if events != [] { assert EventKeys(events)[|events| - 1] == RowKeys(since)[|events| - 1]; }
  }

  lemma SourcesInvariant<P>(other: string -> Option<int>, want: string -> bool, w: World<P>, a: Action<P>)
    requires Invariant(want, w) && !a.Connect?
    ensures Invariant(want, Step(other, want, w, a))
  {
    var t := Step(other, want, w, a);
    if t.sources != w.sources {
      forall i, j | 0 <= i < j < |t.sources| ensures t.sources[i].ref != t.sources[j].ref {
        if a.AddSource? && j == |w.sources| {
          FindIsSource(w.sources, a.source.ref);
        }
      }
      forall i | 0 <= i < |t.log| ensures Find(t.sources, t.log[i].ref).Some? {
        FindIsSource(w.sources, w.log[i].ref);
        FindIsSource(t.sources, w.log[i].ref);
        var k :| 0 <= k < |w.sources| && w.sources[k].ref == w.log[i].ref;
        assert t.sources[k].ref == w.log[i].ref;
      }
    }
  }

  lemma {:induction false} RunInvariant<P>(other: string -> Option<int>, want: string -> bool, w: World<P>,
                                           actions: seq<Action<P>>)
    requires Invariant(want, w)
    ensures Invariant(want, Run(other, want, w, actions))
    decreases |actions|
  {
    if actions != [] {
      if actions[0].Connect? {
        ConnectInvariant(other, want, w, actions[0].delivered);
      } else {
        SourcesInvariant(other, want, w, actions[0]);
      }
      RunInvariant(other, want, Step(other, want, w, actions[0]), actions[1..]);
    }
  }

  lemma {:induction false} WantedMembers(want: string -> bool, rows: seq<LogRow>, r: LogRow)
    ensures r in WantedRows(want, rows) <==> r in rows && want(r.ref.kind)
  {
    if rows != [] {
      var n := |rows| - 1;
      WantedMembers(want, rows[..n], r);
      assert rows == rows[..n] + [rows[n]];
    }
  }

  lemma {:induction false} WantedInOrder(want: string -> bool, rows: seq<LogRow>)
    requires Ascending(rows) && LoggedOnce(rows)
    ensures Ascending(WantedRows(want, rows)) && LoggedOnce(WantedRows(want, rows))
  {
    if rows != [] {
      var n := |rows| - 1;
      var init := WantedRows(want, rows[..n]);
      WantedInOrder(want, rows[..n]);
      forall i | 0 <= i < |init| ensures init[i].sequence < rows[n].sequence && init[i].ref != rows[n].ref {
        WantedMembers(want, rows[..n], init[i]);
        var k :| 0 <= k < n && rows[..n][k] == init[i];
        assert rows[k] == init[i];
      }
    }
  }

  /** Received in strictly growing order, no source row twice, and only wanted source rows. */
  ghost predicate NothingTwice<P>(want: string -> bool, w: World<P>) {
    && (forall i, j :: 0 <= i < j < |w.received| ==>
          w.received[i].sequence < w.received[j].sequence && w.received[i].ref != w.received[j].ref)
    && (forall i :: 0 <= i < |w.received| ==> want(w.received[i].ref.kind) && Find(w.sources, w.received[i].ref).Some?)
  }

  ghost predicate NothingMissed<P>(want: string -> bool, w: World<P>) {
    forall s :: s in w.sources && want(s.ref.kind) ==> exists i :: 0 <= i < |w.received| && w.received[i].ref == s.ref
  }

  lemma ReceivedInOrder<P>(want: string -> bool, w: World<P>)
    requires Invariant(want, w)
    ensures NothingTwice(want, w)
  {
    var seen := w.log[..w.seen];
    var rows := WantedRows(want, seen);
    WantedInOrder(want, seen);
    forall i | 0 <= i < |w.received|
      ensures w.received[i].sequence == rows[i].sequence && w.received[i].ref == rows[i].ref
      ensures want(rows[i].ref.kind) && Find(w.sources, rows[i].ref).Some?
    {
      assert EventKeys(w.received)[i] == RowKeys(rows)[i];
      WantedMembers(want, seen, rows[i]);
      var k :| 0 <= k < |seen| && seen[k] == rows[i];
      assert w.log[k] == rows[i];
    }
  }

  /**
   Resume is exactly-once: wherever its connections were cut, a client has never received
   an event twice or out of order, and after any connection that sent its whole reply it
   has received the event of every wanted source row.
   */
  lemma ResumeIsExactlyOnce<P>(other: string -> Option<int>, want: string -> bool, start: World<P>,
                               actions: seq<Action<P>>, delivered: nat)
    requires Initial(start)
    ensures NothingTwice(want, Run(other, want, start, actions))
    ensures var before := Run(other, want, start, actions);
            delivered >= |Reply(other, want, before)| ==>
              NothingMissed(want, Step(other, want, before, Connect(delivered)))
  {
    assert start.log[..0] == [];
    RunInvariant(other, want, start, actions);
    var before := Run(other, want, start, actions);
    ReceivedInOrder(want, before);
    if delivered >= |Reply(other, want, before)| {
      FullReplyReachesTheEnd(other, want, before, delivered);
      ConnectInvariant(other, want, before, delivered);
      SyncBackfills(before.sources, before.log);
      EverythingReceived(want, Step(other, want, before, Connect(delivered)));
    }
  }

  lemma FullReplyReachesTheEnd<P>(other: string -> Option<int>, want: string -> bool, w: World<P>, delivered: nat)
    requires Invariant(want, w) && delivered >= |Reply(other, want, w)|
    ensures Step(other, want, w, Connect(delivered)).seen == |Synced(w.sources, w.log)|
  {
    ReplyIsTheNew(other, want, w);
    var wanted := WantedRows(want, Synced(w.sources, w.log)[w.seen..]);
    assert |RowKeys(wanted)| == |wanted|;
  }

  lemma EverythingReceived<P>(want: string -> bool, w: World<P>)
    requires Invariant(want, w) && w.seen == |w.log| && AllLogged(w.sources, w.log)
    ensures NothingMissed(want, w)
  {
    assert w.log[..w.seen] == w.log;
    var rows := WantedRows(want, w.log);
    forall s | s in w.sources && want(s.ref.kind)
      ensures exists i :: 0 <= i < |w.received| && w.received[i].ref == s.ref
    {
      var k :| 0 <= k < |w.sources| && w.sources[k] == s;
      assert Logged(w.log, w.sources[k].ref);
      var m :| 0 <= m < |w.log| && w.log[m].ref == s.ref;
      WantedMembers(want, w.log, w.log[m]);
      var i :| 0 <= i < |rows| && rows[i] == w.log[m];
      assert EventKeys(w.received)[i] == RowKeys(rows)[i];
      assert w.received[i].ref == s.ref;
    }
  }
}
