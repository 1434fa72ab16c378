/**
 * The collaboration session (ui/markdown/source/collaboration.ts): local updates
 * wait in a queue, one of them is in flight, the server numbers what it made
 * durable, and a checkpoint saves the text as it was when it was asked for.
 *
 * First the steps as functions on a session's state and what holds of every run;
 * then the class with the source's fields and methods, proved to take those steps.
 *
 * A document is the list of changes applied to it.  The session starts when its
 * socket has opened.
 */
module Collaboration {
  import opened Prelude
  import opened Protobuf
  import opened CollaborationWire
  import Utf8

  datatype Change = Local(update: seq<Byte>) | Remote(group: seq<Byte>)

  type Document = seq<Change>

  /** A slot of a chunk array: never written, or written. */
  datatype Slot = Hole | Undefined | Chunk(bytes: seq<Byte>)

  datatype Accumulator = Accumulator(chunks: seq<Slot>, sequence: nat, snapshot: bool)

  datatype InFlight = InFlight(id: Utf8.Text, entry: Entry)

  /** A frame handed to the socket. */
  datatype Outgoing =
    | UpdateOut(id: Utf8.Text, sequence: nat, entry: Entry)
    | CheckpointOut(sequence: nat)

  function OutgoingBytes(f: Outgoing): seq<Byte> {
    match f
    case UpdateOut(id, sequence, entry) => UpdateFrame(id, sequence, entry)
    case CheckpointOut(sequence) => CheckpointFrame(sequence)
  }

  /** The session's fields, its socket and document, and the history the theorems speak of. */
  datatype State = State(
    acknowledged: nat,
    destroyed: bool,
    failed: bool,
    ready: bool,
    sync: Option<Accumulator>,
    inFlight: Option<InFlight>,
    pending: seq<Entry>,
    request: Option<Document>,
    open: bool,
    document: Document,
    // History: local updates accepted, acknowledged and sent; the sequence of the last request.
    enqueued: seq<Entry>,
    acked: seq<Entry>,
    sent: seq<Outgoing>,
    requestedAt: nat)

  const INITIAL := State(0, false, false, false, None, None, [], None, true, [], [], [], [], 0)

  // ---- Steps -------------------------------------------------------------------------------

  function Failed(s: State): State {
    if s.destroyed || s.failed then s
    else s.(failed := true, ready := false, request := None, open := false)
  }

  function Destroyed(s: State): State {
    if s.destroyed then s else s.(destroyed := true, ready := false, request := None, open := false)
  }

  function Pumped(s: State, id: Utf8.Text): State {
    if s.inFlight.Some? || !s.open || s.pending == [] then s
    else
      s.(inFlight := Some(InFlight(id, s.pending[0])), pending := s.pending[1..],
         sent := s.sent + [UpdateOut(id, s.acknowledged, s.pending[0])])
  }

  function Edited(s: State, entry: Entry, id: Utf8.Text): State {
    var s := s.(document := s.document + [Local(entry.update)]);
    if !s.ready || s.destroyed then s
    else if !Supported(entry.update) then Failed(s)
    else Pumped(s.(pending := s.pending + [entry], enqueued := s.enqueued + [entry]), id)
  }

  predicate MayRequest(s: State) {
    s.ready && !s.destroyed && s.inFlight.None? && s.pending == [] && s.request.None?
  }

  /** A request on a socket that is no longer open is rejected, but stays registered. */
  function Requested(s: State): State {
    if !MayRequest(s) then s
    else
      s.(request := Some(s.document), requestedAt := s.acknowledged,
         sent := s.sent + if s.open then [CheckpointOut(s.acknowledged)] else [])
  }

  /** Array.prototype.every does not visit holes. */
  predicate HasAllChunks(chunks: seq<Slot>) { forall i | 0 <= i < |chunks| :: chunks[i] != Undefined }

  /** Concatenation iterates over every slot and throws on the first one without bytes. */
  function Joined(chunks: seq<Slot>): Option<seq<Byte>> {
    if chunks == [] then Some([])
    else if !chunks[0].Chunk? then None
    else
      match Joined(chunks[1..])
      case None => None
      case Some(rest) => Some(chunks[0].bytes + rest)
  }

  function Applied(s: State, group: seq<Byte>, sequence: nat): State {
    s.(document := s.document + if group == [] then [] else [Remote(group)], acknowledged := sequence)
  }

  /** A complete group: the state after it, and whether no error was thrown. */
  function Delivered(s: State, group: seq<Byte>, sequence: nat, snapshot: bool): (State, bool) {
    if |group| > MAXIMUM_UPDATE then (s, false)
    else if !s.ready then
      if !snapshot then (s, false) else (Applied(s, group, sequence).(ready := true), true)
    else if snapshot then (s, false)
    else if sequence <= s.acknowledged then (s, true)
    else if sequence != s.acknowledged + 1 then (s, false)
    else (Applied(s, group, sequence), true)
  }

  function Holes(count: nat): seq<Slot> { seq(count, _ => Hole) }

  function Synced(s: State, f: Incoming): (State, bool)
    requires f.Sync?
  {
    if f.count < 1 || f.count > 16 || f.index >= f.count || |f.update| > MAXIMUM_CHUNK then (s, false)
    else if s.sync.Some? && (s.sync.value.sequence != f.sequence || s.sync.value.snapshot != f.snapshot) then (s, false)
    else
      var chunks := if s.sync.Some? then s.sync.value.chunks else Holes(f.count);
      if |chunks| != f.count || chunks[f.index].Chunk? then (s, false)
      else
        var chunks := chunks[f.index := Chunk(f.update)];
        var s := s.(sync := Some(Accumulator(chunks, f.sequence, f.snapshot)));
        if !HasAllChunks(chunks) then (s, true)
        else
          match Joined(chunks)
          case None => (s, false)
          case Some(group) => Delivered(s.(sync := None), group, f.sequence, f.snapshot)
  }

  function Acked(s: State, id: Utf8.Text, sequence: nat, next: Utf8.Text): (State, bool) {
    if s.inFlight.None? || s.inFlight.value.id != id || sequence < s.acknowledged || sequence > s.acknowledged + 1
    then (s, false)
    else
      (Pumped(s.(acknowledged := sequence, inFlight := None, acked := s.acked + [s.inFlight.value.entry]), next), true)
  }

  predicate Resolves(s: State, f: Incoming) {
    f.Checkpoint? && s.request.Some? && f.state == 2 && f.sequence == s.acknowledged && f.id != []
  }

  /**
   * A frame: `next` is the identifier drawn if an update is sent, `presence` whether a
   * presence frame is well formed.
   */
  function Received(s: State, f: Incoming, next: Utf8.Text, presence: bool): (State, bool) {
    match f
    case Sync(_, _, _, _, _) => Synced(s, f)
    case Acknowledgement(id, sequence) => Acked(s, id, sequence, next)
    case Presence => (s, presence)
    case Checkpoint(_, _, _) => if Resolves(s, f) then (s.(request := None), true) else (s, false)
    case Refusal => (Failed(s), true)
    case Heartbeat => (s, true)
    case Invalid => (s, false)
  }

  /** A thrown error fails the session. */
  function Handled(s: State, f: Incoming, next: Utf8.Text, presence: bool): State {
    var (after, ok) := Received(s, f, next, presence);
    if ok then after else Failed(after)
  }

  datatype Event =
    | Message(bytes: seq<Byte>, next: Utf8.Text, presence: bool)
    | Edit(entry: Entry, next: Utf8.Text)
    | AskCheckpoint
    | Dropped  // the socket leaves its open state
    | Closed   // the socket's close event
    | Leave    // the view destroys the session

  predicate ValidEvent(e: Event) {
    match e
    case Message(_, next, _) => IsIdentifier(next)
    case Edit(entry, next) =>
      IsIdentifier(next) && (entry.invocation.Some? ==> IsIdentifier(entry.invocation.value))
    case _ => true
  }

  /** Nobody holds a session that never became ready, and a socket that is not open delivers nothing. */
  function Next(s: State, e: Event): State {
    match e
    case Message(bytes, next, presence) =>
      if !s.open then s else Handled(s, Classify(bytes), next, presence)
    case Edit(entry, next) => if Connecting(s) then s else Edited(s, entry, next)
    case AskCheckpoint => Requested(s)
    case Dropped => s.(open := false)
    case Closed => Failed(s.(open := false))
    case Leave => Destroyed(s)
  }

  predicate Connecting(s: State) { !s.ready && !s.failed && !s.destroyed }

  function Run(s: State, events: seq<Event>): State {
    if events == [] then s else Next(Run(s, events[..|events| - 1]), events[|events| - 1])
  }

  predicate ValidEvents(events: seq<Event>) { forall i | 0 <= i < |events| :: ValidEvent(events[i]) }

  // ---- What every step keeps ------------------------------------------------------------------

  function Flying(s: State): seq<Entry> { if s.inFlight.Some? then [s.inFlight.value.entry] else [] }

  /** The updates among the frames sent. */
  function Entries(sent: seq<Outgoing>): seq<Entry> {
    if sent == [] then []
    else Entries(sent[..|sent| - 1]) + match sent[|sent| - 1] case UpdateOut(_, _, e) => [e] case CheckpointOut(_) => []
  }

  /** The last update frame sent. */
  function LastUpdate(sent: seq<Outgoing>): Option<InFlight> {
    if sent == [] then None
    else
      match sent[|sent| - 1]
      case UpdateOut(id, _, e) => Some(InFlight(id, e))
      case CheckpointOut(_) => LastUpdate(sent[..|sent| - 1])
  }

  function Updates(entries: seq<Entry>): seq<seq<Byte>> {
    if entries == [] then [] else Updates(entries[..|entries| - 1]) + [entries[|entries| - 1].update]
  }

  function Locals(d: Document): seq<seq<Byte>> {
    if d == [] then []
    else Locals(d[..|d| - 1]) + match d[|d| - 1] case Local(u) => [u] case Remote(_) => []
  }

  function Remotes(d: Document): seq<seq<Byte>> {
    if d == [] then []
    else Remotes(d[..|d| - 1]) + match d[|d| - 1] case Local(_) => [] case Remote(g) => [g]
  }

  predicate Proper(f: Outgoing) {
    f.sequence <= SAFE && (f.UpdateOut? ==> IsIdentifier(f.id) && ValidEntry(f.entry))
  }

  predicate AllProper(sent: seq<Outgoing>) { forall i | 0 <= i < |sent| :: Proper(sent[i]) }

  predicate AllValid(entries: seq<Entry>) { forall i | 0 <= i < |entries| :: ValidEntry(entries[i]) }

  /** Every update accepted is acknowledged, in flight or waiting; those sent are the first two kinds. */
  predicate Conserved(s: State) {
    && s.enqueued == s.acked + Flying(s) + s.pending
    && Entries(s.sent) == s.acked + Flying(s)
    && (s.inFlight.Some? ==> LastUpdate(s.sent) == s.inFlight)
    && AllValid(s.pending)
    && AllProper(s.sent)
  }

  /** The queue never waits for nothing. */
  predicate Live(s: State) { s.open && s.pending != [] ==> s.inFlight.Some? }

  /** Flags, and the document against the updates accepted. */
  predicate Ordered(s: State) {
    && s.acknowledged <= SAFE
    && (s.failed || s.destroyed ==> !s.ready && !s.open)
    && (s.open ==> s.sync.None?)
    && (Connecting(s) ==> s.acknowledged == 0 && s.enqueued == [] && Locals(s.document) == [])
    && (s.ready ==> Locals(s.document) == Updates(s.enqueued))
  }

  /**
   * A registered request holds the document of a moment at which every local update was
   * acknowledged, and each remote group applied since has raised the sequence.
   */
  predicate Faithful(s: State) {
    s.request.Some? ==>
      var source := s.request.value;
      && s.ready
      && Locals(source) <= Updates(s.acked)
      && Remotes(source) <= Remotes(s.document)
      && s.requestedAt + (|Remotes(s.document)| - |Remotes(source)|) <= s.acknowledged
  }

  predicate Good(s: State) { Conserved(s) && Live(s) && Ordered(s) && Faithful(s) }

  lemma EntriesSnoc(sent: seq<Outgoing>, f: Outgoing)
    ensures Entries(sent + [f]) == Entries(sent) + match f case UpdateOut(_, _, e) => [e] case CheckpointOut(_) => []
    ensures LastUpdate(sent + [f]) == if f.UpdateOut? then Some(InFlight(f.id, f.entry)) else LastUpdate(sent)
  {
    assert (sent + [f])[..|sent|] == sent;
  }

  lemma UpdatesSnoc(entries: seq<Entry>, e: Entry)
    ensures Updates(entries + [e]) == Updates(entries) + [e.update]
  {
    assert (entries + [e])[..|entries|] == entries;
  }

  lemma DocumentSnoc(d: Document, c: Change)
    ensures Locals(d + [c]) == Locals(d) + match c case Local(u) => [u] case Remote(_) => []
    ensures Remotes(d + [c]) == Remotes(d) + match c case Local(_) => [] case Remote(g) => [g]
  {
    assert (d + [c])[..|d|] == d;
  }

  lemma FailedIsGood(s: State)
    requires Conserved(s) && s.acknowledged <= SAFE && !s.failed && !s.destroyed
    ensures Good(Failed(s))
  {
  }

  lemma DestroyedIsGood(s: State)
    requires Good(s)
    ensures Good(Destroyed(s))
  {
  }

  /** No frame is too large to send. */
  lemma ProperFits(f: Outgoing)
    requires Proper(f)
    ensures |OutgoingBytes(f)| <= MAXIMUM_FRAME
  {
    match f
    case UpdateOut(id, sequence, e) => UpdateFrameFits(id, sequence, e);
    case CheckpointOut(sequence) => CheckpointFrameFits(sequence);
  }

  lemma PumpConserves(s: State, id: Utf8.Text)
    requires Conserved(s) && s.acknowledged <= SAFE && IsIdentifier(id)
    ensures Conserved(Pumped(s, id)) && Live(Pumped(s, id))
  {
    if !(s.inFlight.Some? || !s.open || s.pending == []) {
      var e := s.pending[0];
      EntriesSnoc(s.sent, UpdateOut(id, s.acknowledged, e));
      assert s.acked + [] + s.pending == s.acked + [e] + s.pending[1..];
      assert s.acked + [] == s.acked;
    }
  }

  lemma PumpKeepsRest(s: State, id: Utf8.Text)
    requires Ordered(s) && Faithful(s)
    ensures Ordered(Pumped(s, id)) && Faithful(Pumped(s, id))
  {
  }

  lemma EnqueueKeeps(s: State, e: Entry)
    requires Good(s) && s.ready && ValidEntry(e)
    ensures var t := s.(document := s.document + [Local(e.update)], pending := s.pending + [e],
                        enqueued := s.enqueued + [e]);
            Conserved(t) && Ordered(t) && Faithful(t)
  {
    assert s.acked + Flying(s) + s.pending + [e] == s.acked + Flying(s) + (s.pending + [e]);
    UpdatesSnoc(s.enqueued, e);
    DocumentSnoc(s.document, Local(e.update));
  }

  lemma EditKeepsGood(s: State, e: Entry, id: Utf8.Text)
    requires Good(s) && !Connecting(s) && ValidEvent(Edit(e, id))
    ensures Good(Edited(s, e, id))
  {
    var t := s.(document := s.document + [Local(e.update)]);
    if s.ready && !s.destroyed && !s.failed {
      if !Supported(e.update) {
        FailedIsGood(t);
      } else {
        EnqueueKeeps(s, e);
        var u := t.(pending := s.pending + [e], enqueued := s.enqueued + [e]);
        PumpConserves(u, id);
        PumpKeepsRest(u, id);
      }
    }
  }

  lemma RequestKeepsGood(s: State)
    requires Good(s)
    ensures Good(Requested(s))
  {
    if MayRequest(s) {
      EntriesSnoc(s.sent, CheckpointOut(s.acknowledged));
      assert s.sent + [] == s.sent && Entries(s.sent) + [] == Entries(s.sent);
      assert s.acked + [] + [] == s.acked;
    }
  }

  // ---- Frames ---------------------------------------------------------------------------------

  lemma AckKeepsGood(s: State, id: Utf8.Text, sequence: nat, next: Utf8.Text)
    requires Good(s) && s.open && sequence <= SAFE && IsIdentifier(next) && Acked(s, id, sequence, next).1
    ensures Good(Acked(s, id, sequence, next).0)
  {
    var e := s.inFlight.value.entry;
    var t := s.(acknowledged := sequence, inFlight := None, acked := s.acked + [e]);
    assert t.acked + [] == t.acked;
    UpdatesSnoc(s.acked, e);
    PumpConserves(t, next);
    PumpKeepsRest(t, next);
  }

  lemma HolesJoinIff(chunks: seq<Slot>)
    ensures Joined(chunks).Some? <==> forall i | 0 <= i < |chunks| :: chunks[i].Chunk?
  {
  }

  /** What the accumulator does to a group while the session is open: one chunk is a whole group or an error. */
  lemma GroupIffSingle(s: State, f: Incoming)
    requires f.Sync? && s.sync.None?
    requires 1 <= f.count <= 16 && f.index < f.count && |f.update| <= MAXIMUM_CHUNK
    ensures f.count == 1 ==> Synced(s, f) == Delivered(s, f.update, f.sequence, f.snapshot)
    ensures f.count > 1 ==> !Synced(s, f).1
    ensures f.count > 1 ==> exists sync :: Synced(s, f).0 == s.(sync := sync)
  {
    var chunks := Holes(f.count)[f.index := Chunk(f.update)];
    assert chunks[f.index] == Chunk(f.update) && forall i | 0 <= i < f.count && i != f.index :: chunks[i] == Hole;
    assert HasAllChunks(chunks);
    HolesJoinIff(chunks);
    if f.count == 1 {
      assert chunks == [Chunk(f.update)];
      assert chunks[1..] == [];
      assert Joined(chunks) == Some(f.update + []);
      assert f.update + [] == f.update;
      assert s.(sync := Some(Accumulator(chunks, f.sequence, f.snapshot))).(sync := None) == s;
    } else {
      assert chunks[if f.index == 0 then 1 else 0] == Hole;
      assert Synced(s, f).0 == s.(sync := Some(Accumulator(chunks, f.sequence, f.snapshot)));
    }
  }

  lemma ApplyKeeps(s: State, group: seq<Byte>, sequence: nat)
    requires Good(s) && s.open && sequence <= SAFE
    requires s.ready ==> sequence == s.acknowledged + 1
    ensures Good(Applied(s, group, sequence).(ready := true))
  {
    if group != [] { DocumentSnoc(s.document, Remote(group)); } else { assert s.document + [] == s.document; }
  }

  /** A sync frame leaves an open session good, or throws and leaves everything but the accumulator. */
  lemma SyncKeeps(s: State, f: Incoming)
    requires Good(s) && s.open && f.Sync? && f.sequence <= SAFE
    ensures Synced(s, f).1 ==> Good(Synced(s, f).0)
    ensures !Synced(s, f).1 ==> exists sync :: Synced(s, f).0 == s.(sync := sync)
  {
    if f.count < 1 || f.count > 16 || f.index >= f.count || |f.update| > MAXIMUM_CHUNK {
      assert Synced(s, f).0 == s.(sync := s.sync);
    } else {
      GroupIffSingle(s, f);
      if f.count == 1 {
        if !s.ready || f.sequence == s.acknowledged + 1 { ApplyKeeps(s, f.update, f.sequence); }
        if !Synced(s, f).1 { assert Synced(s, f).0 == s.(sync := s.sync); }
      }
    }
  }

  lemma HandledIsGood(s: State, f: Incoming, next: Utf8.Text, presence: bool)
    requires Good(s) && s.open && IsIdentifier(next)
    requires f.Sync? || f.Acknowledgement? ==> f.sequence <= SAFE
    ensures Good(Handled(s, f, next, presence))
  {
    var (after, ok) := Received(s, f, next, presence);
    if f.Sync? {
      SyncKeeps(s, f);
      if !ok { FailedIsGood(after); }
    } else if f.Acknowledgement? && ok {
      AckKeepsGood(s, f.id, f.sequence, next);
    } else {
      FailedIsGood(s);
    }
  }

  lemma MessageKeepsGood(s: State, bytes: seq<Byte>, next: Utf8.Text, presence: bool)
    requires Good(s) && IsIdentifier(next)
    ensures Good(Next(s, Message(bytes, next, presence)))
  {
    if s.open {
      SequencesAreSafe(bytes);
      HandledIsGood(s, Classify(bytes), next, presence);
    }
  }

  lemma NextKeepsGood(s: State, e: Event)
    requires Good(s) && ValidEvent(e)
    ensures Good(Next(s, e))
  {
    match e
    case Message(bytes, next, presence) => MessageKeepsGood(s, bytes, next, presence);
    case Edit(entry, next) => if !Connecting(s) { EditKeepsGood(s, entry, next); }
    case AskCheckpoint => RequestKeepsGood(s);
    case Dropped =>
    case Closed => if !s.failed && !s.destroyed { FailedIsGood(s.(open := false)); }
    case Leave => DestroyedIsGood(s);
  }

  lemma {:induction false} RunIsGood(s: State, events: seq<Event>)
    requires Good(s) && ValidEvents(events)
    ensures Good(Run(s, events))
  {
    if events != [] {
      RunIsGood(s, events[..|events| - 1]);
      NextKeepsGood(Run(s, events[..|events| - 1]), events[|events| - 1]);
    }
  }

  /** In every reachable state local updates are conserved, the queue is live and a request is faithful. */
  lemma EveryRunIsGood(events: seq<Event>)
    requires ValidEvents(events)
    ensures Good(Run(INITIAL, events))
  {
    RunIsGood(INITIAL, events);
  }

  // ---- Consequences for every run ----------------------------------------------------------------

  /** What was sent is a prefix of what was accepted: each update once and in order, in a frame that fits. */
  lemma SentOnceInOrder(events: seq<Event>, i: nat)
    requires ValidEvents(events) && i < |Run(INITIAL, events).sent|
    ensures var s := Run(INITIAL, events);
      && Entries(s.sent) <= s.enqueued
      && s.acked <= Entries(s.sent)
      && |Entries(s.sent)| <= |s.acked| + 1
      && |OutgoingBytes(s.sent[i])| <= MAXIMUM_FRAME
  {
    EveryRunIsGood(events);
    ProperFits(Run(INITIAL, events).sent[i]);
  }

  /** A step sends at most one frame, stamped with the sequence it leaves; an update frame is then the one in flight. */
  lemma FramesAreStamped(s: State, e: Event)
    ensures var t := Next(s, e);
      && s.sent <= t.sent && |t.sent| <= |s.sent| + 1
      && (|t.sent| > |s.sent| ==>
            var f := t.sent[|s.sent|];
            f.sequence == t.acknowledged && (f.UpdateOut? ==> t.inFlight == Some(InFlight(f.id, f.entry))))
  {
    if e.Message? && s.open { HandledIsStamped(s, Classify(e.bytes), e.next, e.presence); }
  }

  lemma HandledIsStamped(s: State, f: Incoming, next: Utf8.Text, presence: bool)
    ensures var t := Handled(s, f, next, presence);
      && s.sent <= t.sent && |t.sent| <= |s.sent| + 1
      && (|t.sent| > |s.sent| ==>
            var f := t.sent[|s.sent|];
            f.sequence == t.acknowledged && f.UpdateOut? && t.inFlight == Some(InFlight(f.id, f.entry)))
  {
    if f.Sync? {
      SyncSendsNothing(s, f);
    } else if f.Acknowledgement? {
      AckSendsNext(s, f.id, f.sequence, next);
    }
  }

  lemma SyncSendsNothing(s: State, f: Incoming)
    requires f.Sync?
    ensures Synced(s, f).0.sent == s.sent
  {
  }

  lemma AckSendsNext(s: State, id: Utf8.Text, sequence: nat, next: Utf8.Text)
    ensures var (t, ok) := Acked(s, id, sequence, next);
      t.sent == s.sent + if ok && t.inFlight.Some?
                         then [UpdateOut(next, t.acknowledged, t.inFlight.value.entry)] else []
    ensures var (t, ok) := Acked(s, id, sequence, next);
      ok && t.inFlight.Some? ==> t.inFlight.value.id == next
  {
    assert s.sent + [] == s.sent;
  }

  /** An accepted acknowledgement is for the last update sent, and that update becomes acknowledged. */
  lemma AcknowledgesLastSent(s: State, id: Utf8.Text, sequence: nat, next: Utf8.Text)
    requires Good(s) && Acked(s, id, sequence, next).1
    ensures LastUpdate(s.sent).Some? && LastUpdate(s.sent).value.id == id
    ensures Acked(s, id, sequence, next).0.acked == s.acked + [LastUpdate(s.sent).value.entry]
  {
  }

  /** The sequence never decreases; once ready, one frame raises it by at most one and nothing else does. */
  lemma SequenceStep(s: State, e: Event)
    requires Good(s)
    ensures s.acknowledged <= Next(s, e).acknowledged
    ensures s.ready ==> Next(s, e).acknowledged <= s.acknowledged + if e.Message? then 1 else 0
  {
    if e.Message? && s.open { FrameStep(s, Classify(e.bytes), e.next, e.presence); }
  }

  lemma FrameStep(s: State, f: Incoming, next: Utf8.Text, presence: bool)
    requires Good(s) && s.open
    ensures s.acknowledged <= Handled(s, f, next, presence).acknowledged
    ensures s.ready ==> Handled(s, f, next, presence).acknowledged <= s.acknowledged + 1
  {
    if f.Sync? { SyncStep(s, f); }
  }

  lemma SyncStep(s: State, f: Incoming)
    requires Good(s) && s.open && f.Sync?
    ensures s.acknowledged <= Synced(s, f).0.acknowledged
    ensures s.ready ==> Synced(s, f).0.acknowledged <= s.acknowledged + 1
  {
    if !(f.count < 1 || f.count > 16 || f.index >= f.count || |f.update| > MAXIMUM_CHUNK) { GroupIffSingle(s, f); }
  }

  function Messages(events: seq<Event>): nat {
    if events == [] then 0
    else Messages(events[..|events| - 1]) + if events[|events| - 1].Message? then 1 else 0
  }

  /** Over any run of a ready session the sequence grows by at most the number of frames received. */
  lemma {:induction false} SequenceOverRun(s: State, events: seq<Event>)
    requires Good(s) && ValidEvents(events) && s.ready
    ensures !Connecting(Run(s, events))
    ensures s.acknowledged <= Run(s, events).acknowledged <= s.acknowledged + Messages(events)
  {
    if events != [] {
      var before := events[..|events| - 1];
      SequenceOverRun(s, before);
      RunIsGood(s, before);
      EndedStays(Run(s, before), events[|events| - 1]);
      SequenceStep(Run(s, before), events[|events| - 1]);
    }
  }

  /** A session that became ready is never waiting for its snapshot again, and an ended one keeps its sequence. */
  lemma EndedStays(s: State, e: Event)
    requires Good(s) && !Connecting(s)
    ensures !Connecting(Next(s, e))
    ensures !s.ready ==> Next(s, e).acknowledged == s.acknowledged
  {
    if e.Message? && s.open && Classify(e.bytes).Sync? {
      var f := Classify(e.bytes);
      if !(f.count < 1 || f.count > 16 || f.index >= f.count || |f.update| > MAXIMUM_CHUNK) { GroupIffSingle(s, f); }
    }
  }

  /**
   * A checkpoint that resolves at the sequence of its request saves a text with every
   * local update in it acknowledged, and with every remote group applied so far.
   */
  lemma CheckpointIsCurrent(events: seq<Event>, f: Incoming)
    requires ValidEvents(events) && Resolves(Run(INITIAL, events), f)
    requires f.sequence == Run(INITIAL, events).requestedAt
    ensures var s := Run(INITIAL, events);
      && Locals(s.request.value) <= Updates(s.acked)
      && Remotes(s.request.value) == Remotes(s.document)
  {
    EveryRunIsGood(events);
  }

  /** One that resolves after a group was applied saves the text from before that group. */
  lemma LaterCheckpointIsStale(s: State, group: seq<Byte>, next: Utf8.Text, id: Utf8.Text)
    requires Good(s) && s.open && s.request.Some? && 1 <= |group| <= MAXIMUM_CHUNK && id != []
    ensures var t := Handled(s, Sync(s.acknowledged + 1, 0, 1, group, false), next, true);
      && Resolves(t, Checkpoint(id, s.acknowledged + 1, 2))
      && t.request == s.request
      && Remotes(t.document) == Remotes(s.document) + [group]
      && Remotes(t.request.value) != Remotes(t.document)
  {
    var f := Sync(s.acknowledged + 1, 0, 1, group, false);
    GroupIffSingle(s, f);
    DocumentSnoc(s.document, Remote(group));
  }

  /** The group that a frame adds to the document: a whole next group, or the snapshot. */
  function GroupIn(s: State, f: Incoming): seq<seq<Byte>> {
    if !f.Sync? then []
    else
      var next := if s.ready then !f.snapshot && f.sequence == s.acknowledged + 1 else f.snapshot;
      if next && f.count == 1 && f.index == 0 && 1 <= |f.update| <= MAXIMUM_CHUNK then [f.update] else []
  }

  function GroupOf(s: State, e: Event): seq<seq<Byte>> {
    if e.Message? && s.open then GroupIn(s, Classify(e.bytes)) else []
  }

  function Groups(s: State, events: seq<Event>): seq<seq<Byte>> {
    if events == [] then []
    else Groups(s, events[..|events| - 1]) + GroupOf(Run(s, events[..|events| - 1]), events[|events| - 1])
  }

  lemma SyncRemotes(s: State, f: Incoming)
    requires Good(s) && s.open && f.Sync?
    ensures Remotes(Synced(s, f).0.document) == Remotes(s.document) + GroupIn(s, f)
  {
    if 1 <= f.count <= 16 && f.index < f.count && |f.update| <= MAXIMUM_CHUNK {
      GroupIffSingle(s, f);
      if f.update != [] { DocumentSnoc(s.document, Remote(f.update)); } else { assert s.document + [] == s.document; }
    }
    assert Remotes(s.document) + [] == Remotes(s.document);
  }

  lemma FrameRemotes(s: State, f: Incoming, next: Utf8.Text, presence: bool)
    requires Good(s) && s.open
    ensures Remotes(Handled(s, f, next, presence).document) == Remotes(s.document) + GroupIn(s, f)
  {
    if f.Sync? { SyncRemotes(s, f); } else { assert Remotes(s.document) + [] == Remotes(s.document); }
  }

  lemma RemotesStep(s: State, e: Event)
    requires Good(s)
    ensures Remotes(Next(s, e).document) == Remotes(s.document) + GroupOf(s, e)
  {
    if e.Message? && s.open {
      FrameRemotes(s, Classify(e.bytes), e.next, e.presence);
    } else {
      if e.Edit? { DocumentSnoc(s.document, Local(e.entry.update)); }
      assert Remotes(s.document) + [] == Remotes(s.document);
    }
  }

  lemma {:induction false} RemotesOverRun(s: State, events: seq<Event>)
    requires Good(s) && ValidEvents(events)
    ensures Remotes(Run(s, events).document) == Remotes(s.document) + Groups(s, events)
  {
    if events == [] {
      assert Remotes(s.document) + [] == Remotes(s.document);
    } else {
      var before, e := events[..|events| - 1], events[|events| - 1];
      var t := Run(s, before);
      RemotesOverRun(s, before);
      RunIsGood(s, before);
      RemotesStep(t, e);
      Regroup(Remotes(s.document), Groups(s, before), GroupOf(t, e));
    }
  }

  /** A checkpoint saves the current remote groups iff no frame since its request carried a whole next group. */
  lemma CheckpointCurrentIff(s: State, events: seq<Event>, f: Incoming)
    requires Good(s) && MayRequest(s) && ValidEvents(events)
    requires Resolves(Run(Requested(s), events), f) && Run(Requested(s), events).request == Some(s.document)
    ensures var t := Run(Requested(s), events);
      Remotes(t.request.value) == Remotes(t.document) <==> Groups(Requested(s), events) == []
  {
    RequestKeepsGood(s);
    RemotesOverRun(Requested(s), events);
  }

  /** A sync frame of one whole group, as the server writes it; zero fields may be left out. */
  function GroupBytes(sequence: nat, update: seq<Byte>, snapshot: bool, sparse: bool): seq<Byte> {
    var fs := [Varint(1, sequence), Varint(2, 0), Varint(3, 1), Bytes(4, update), Varint(5, if snapshot then 1 else 0)];
    EncodeFields([Bytes(3, EncodeFields(if sparse then Sparse(fs) else fs))])
  }

  lemma GroupIsClassified(sequence: nat, update: seq<Byte>, snapshot: bool, sparse: bool)
    requires sequence <= SAFE && |update| <= MAXIMUM_CHUNK
    requires |GroupBytes(sequence, update, snapshot, sparse)| <= MAXIMUM_FRAME
    ensures Classify(GroupBytes(sequence, update, snapshot, sparse)) == Sync(sequence, 0, 1, update, snapshot)
  {
    SyncIsReadBack(sequence, 0, 1, update, if snapshot then 1 else 0, sparse);
  }

  /** A whole snapshot, as the server sends it, starts a session. */
  lemma SnapshotStarts(sequence: nat, update: seq<Byte>, sparse: bool, next: Utf8.Text, presence: bool)
    requires sequence <= SAFE && |update| <= MAXIMUM_CHUNK
    requires |GroupBytes(sequence, update, true, sparse)| <= MAXIMUM_FRAME
    ensures Next(INITIAL, Message(GroupBytes(sequence, update, true, sparse), next, presence))
      == INITIAL.(ready := true, acknowledged := sequence, document := if update == [] then [] else [Remote(update)])
  {
    GroupIsClassified(sequence, update, true, sparse);
    ClassifiedSnapshotStarts(GroupBytes(sequence, update, true, sparse), sequence, update, next, presence);
  }

  lemma ClassifiedSnapshotStarts(bytes: seq<Byte>, sequence: nat, update: seq<Byte>, next: Utf8.Text, presence: bool)
    requires |update| <= MAXIMUM_CHUNK && Classify(bytes) == Sync(sequence, 0, 1, update, true)
    ensures Next(INITIAL, Message(bytes, next, presence))
      == INITIAL.(ready := true, acknowledged := sequence, document := if update == [] then [] else [Remote(update)])
  {
    GroupIffSingle(INITIAL, Sync(sequence, 0, 1, update, true));
  }

  /** The next whole group, as the server sends it, is applied to a ready session and raises its sequence. */
  lemma NextGroupIsApplied(s: State, update: seq<Byte>, sparse: bool, next: Utf8.Text, presence: bool)
    requires Good(s) && s.open && s.ready && s.acknowledged < SAFE && |update| <= MAXIMUM_CHUNK
    requires |GroupBytes(s.acknowledged + 1, update, false, sparse)| <= MAXIMUM_FRAME
    ensures Next(s, Message(GroupBytes(s.acknowledged + 1, update, false, sparse), next, presence))
      == s.(acknowledged := s.acknowledged + 1,
            document := s.document + if update == [] then [] else [Remote(update)])
  {
    GroupIsClassified(s.acknowledged + 1, update, false, sparse);
    ClassifiedGroupIsApplied(s, GroupBytes(s.acknowledged + 1, update, false, sparse), update, next, presence);
  }

  lemma ClassifiedGroupIsApplied(s: State, bytes: seq<Byte>, update: seq<Byte>, next: Utf8.Text, presence: bool)
    requires Good(s) && s.open && s.ready && |update| <= MAXIMUM_CHUNK
    requires Classify(bytes) == Sync(s.acknowledged + 1, 0, 1, update, false)
    ensures Next(s, Message(bytes, next, presence))
      == s.(acknowledged := s.acknowledged + 1,
            document := s.document + if update == [] then [] else [Remote(update)])
  {
    NextGroupIsHandled(s, update, next, presence);
  }

  lemma NextGroupIsHandled(s: State, update: seq<Byte>, next: Utf8.Text, presence: bool)
    requires Good(s) && s.open && s.ready && |update| <= MAXIMUM_CHUNK
    ensures Handled(s, Sync(s.acknowledged + 1, 0, 1, update, false), next, presence)
      == s.(acknowledged := s.acknowledged + 1,
            document := s.document + if update == [] then [] else [Remote(update)])
  {
    GroupIffSingle(s, Sync(s.acknowledged + 1, 0, 1, update, false));
  }

  /** Frames 8 and 9 end an open session and drop its request, frame 10 changes nothing, whatever they hold. */
  lemma OtherFrames(s: State, number: nat, payload: seq<Byte>, next: Utf8.Text, presence: bool)
    requires Good(s) && s.open && number in {8, 9, 10} && |EncodeFields([Bytes(number, payload)])| <= MAXIMUM_FRAME
    ensures Next(s, Message(EncodeFields([Bytes(number, payload)]), next, presence))
      == if number == 10 then s else s.(failed := true, ready := false, request := None, open := false)
  {
    OtherFramesAreRead(number, payload);
  }

  /** The exact sync frames that an open session accepts: groups of more than one chunk never are. */
  lemma SyncAcceptedIff(s: State, f: Incoming)
    requires Good(s) && s.open && f.Sync?
    ensures Synced(s, f).1 <==>
      && f.count == 1 && f.index == 0 && |f.update| <= MAXIMUM_CHUNK
      && (if s.ready then !f.snapshot && f.sequence <= s.acknowledged + 1 else f.snapshot)
  {
    if !(f.count < 1 || f.count > 16 || f.index >= f.count || |f.update| > MAXIMUM_CHUNK) { GroupIffSingle(s, f); }
  }

  // ---- A session that is answered drains ----------------------------------------------------------

  function Outstanding(s: State): nat { |Flying(s)| + |s.pending| }

  /** The server's answer to the update in flight: it repeats the sequence or gives the next one. */
  datatype Answer = Answer(advances: bool, next: Utf8.Text)

  function AnswerTo(s: State, answer: Answer): Incoming
    requires s.inFlight.Some?
  {
    Acknowledgement(s.inFlight.value.id, s.acknowledged + if answer.advances then 1 else 0)
  }

  /** One answer makes the update in flight acknowledged and sends the next one. */
  lemma AnswerProgresses(s: State, answer: Answer)
    requires Good(s) && s.open && s.inFlight.Some? && IsIdentifier(answer.next) && s.acknowledged < SAFE
    ensures var t := Handled(s, AnswerTo(s, answer), answer.next, true);
      && Good(t) && t.open && t.enqueued == s.enqueued
      && Outstanding(t) == Outstanding(s) - 1
      && t.acked == s.acked + Flying(s)
      && t.acknowledged == s.acknowledged + if answer.advances then 1 else 0
  {
    HandledIsGood(s, AnswerTo(s, answer), answer.next, true);
  }

  /** The session after a list of answers. */
  function Answered(s: State, answers: seq<Answer>): State
    decreases |answers|
  {
    if answers == [] || s.inFlight.None? then s
    else Answered(Handled(s, AnswerTo(s, answers[0]), answers[0].next, true), answers[1..])
  }

  function Advances(answers: seq<Answer>): nat {
    if answers == [] then 0 else (if answers[0].advances then 1 else 0) + Advances(answers[1..])
  }

  /**
   * Once every outstanding update was answered, all that was accepted is acknowledged,
   * and the sequence has advanced as often as the answers say.
   */
  lemma {:induction false} AnsweredSessionDrains(s: State, answers: seq<Answer>)
    requires Good(s) && s.open && |answers| == Outstanding(s) && s.acknowledged + |answers| <= SAFE
    requires forall i | 0 <= i < |answers| :: IsIdentifier(answers[i].next)
    ensures var t := Answered(s, answers);
      && Good(t) && t.open && Outstanding(t) == 0 && t.acked == t.enqueued == s.enqueued
      && t.acknowledged == s.acknowledged + Advances(answers)
    decreases |answers|
  {
    if s.inFlight.Some? {
      AnswerProgresses(s, answers[0]);
      AnsweredSessionDrains(Handled(s, AnswerTo(s, answers[0]), answers[0].next, true), answers[1..]);
    } else {
      assert s.acked + [] + [] == s.acked;
    }
  }

  // ---- The session object --------------------------------------------------------------------------

  class Session {
    var acknowledged: nat
    var destroyed: bool
    var failed: bool
    var ready: bool
    var sync: Option<Accumulator>
    var inFlight: Option<InFlight>
    var pending: seq<Entry>
    var request: Option<Document>
    var open: bool
    var document: Document
    ghost var enqueued: seq<Entry>
    ghost var acked: seq<Entry>
    ghost var sent: seq<Outgoing>
    ghost var requestedAt: nat

    ghost function View(): State
      reads this
    {
      State(acknowledged, destroyed, failed, ready, sync, inFlight, pending, request, open, document,
            enqueued, acked, sent, requestedAt)
    }

    /** The session when its socket has just opened. */
    constructor ()
      ensures View() == INITIAL && Good(View())
    {
      acknowledged, destroyed, failed, ready := 0, false, false, false;
      sync, inFlight, pending, request := None, None, [], None;
      open, document := true, [];
      enqueued, acked, sent, requestedAt := [], [], [], 0;
    }

    /** Send: false stands for a thrown error. */
    method Send(f: Outgoing) returns (ok: bool)
      modifies this`sent
      ensures ok == (|OutgoingBytes(f)| <= MAXIMUM_FRAME && open)
      ensures sent == if ok then old(sent) + [f] else old(sent)
    {
      if |OutgoingBytes(f)| > MAXIMUM_FRAME || !open { return false; }
      sent := sent + [f];
      return true;
    }

    method Fail()
      modifies this
      ensures View() == Failed(old(View()))
    {
      if destroyed || failed { return; }
      failed := true;
      ready := false;
      request := None;
      open := false;
    }

    method Destroy()
      modifies this
      ensures View() == Destroyed(old(View()))
    {
      if destroyed { return; }
      destroyed := true;
      ready := false;
      request := None;
      open := false;
    }

    /** Pump: the send it makes cannot fail. */
    method Pump(id: Utf8.Text)
      requires AllValid(pending) && acknowledged <= SAFE && IsIdentifier(id)
      modifies this
      ensures View() == Pumped(old(View()), id)
    {
      if inFlight.Some? || !open || pending == [] { return; }
      var entry := pending[0];
      pending := pending[1..];
      inFlight := Some(InFlight(id, entry));
      ProperFits(UpdateOut(id, acknowledged, entry));
      var ok := Send(UpdateOut(id, acknowledged, entry));
      assert ok;
    }

    /** A local change of the document and the DocumentUpdate listener it fires. */
    method DocumentUpdate(entry: Entry, id: Utf8.Text)
      requires Good(View()) && ValidEvent(Edit(entry, id))
      modifies this
      ensures View() == Edited(old(View()), entry, id)
    {
      document := document + [Local(entry.update)];
      if !ready || destroyed { return; }
      if |entry.update| == 0 || |entry.update| > MAXIMUM_UPDATE {
        Fail();
        return;
      }
      pending := pending + [entry];
      enqueued := enqueued + [entry];
      Pump(id);
    }

    /** RequestCheckpoint: false stands for a rejected promise. */
    method RequestCheckpoint() returns (ok: bool)
      requires Good(View())
      modifies this
      ensures View() == Requested(old(View()))
      // Only one request at a time, and none while a local update is not acknowledged.
      ensures ok == (old(ready) && !old(destroyed) && old(inFlight).None? && old(pending) == [] && old(request).None?
                     && open)
    {
      if !ready || destroyed || inFlight.Some? || |pending| > 0 || request.Some? { return false; }
      request := Some(document);
      requestedAt := acknowledged;
      ghost var before := sent;
      ProperFits(CheckpointOut(acknowledged));
      ok := Send(CheckpointOut(acknowledged));
      assert before + [] == before;
    }

    method Deliver(group: seq<Byte>, sequence: nat, snapshot: bool) returns (ok: bool)
      modifies this
      ensures (View(), ok) == Delivered(old(View()), group, sequence, snapshot)
    {
      if |group| > MAXIMUM_UPDATE { return false; }
      if !ready {
        if !snapshot { return false; }
        Apply(group, sequence);
        ready := true;
        return true;
      }
      if snapshot { return false; }
      if sequence <= acknowledged { return true; }
      if sequence != acknowledged + 1 { return false; }
      Apply(group, sequence);
      return true;
    }

    method Apply(group: seq<Byte>, sequence: nat)
      modifies this
      ensures View() == Applied(old(View()), group, sequence)
    {
      if |group| > 0 { document := document + [Remote(group)]; } else { assert document + [] == document; }
      acknowledged := sequence;
    }

    /** ReceiveSync: false stands for a thrown error. */
    method ReceiveSync(f: Incoming) returns (ok: bool)
      requires f.Sync?
      modifies this
      ensures (View(), ok) == Synced(old(View()), f)
    {
      if f.count < 1 || f.count > 16 || f.index >= f.count || |f.update| > MAXIMUM_CHUNK { return false; }
      if sync.Some? && (sync.value.sequence != f.sequence || sync.value.snapshot != f.snapshot) { return false; }
      var chunks := if sync.Some? then sync.value.chunks else Holes(f.count);
      if |chunks| != f.count || chunks[f.index].Chunk? { return false; }
      chunks := chunks[f.index := Chunk(f.update)];
      sync := Some(Accumulator(chunks, f.sequence, f.snapshot));
      if !HasAllChunks(chunks) { return true; }
      var group := Joined(chunks);
      if group.None? { return false; }
      sync := None;
      ok := Deliver(group.value, f.sequence, f.snapshot);
    }

    /** ReceiveAcknowledgement: false stands for a thrown error. */
    method ReceiveAcknowledgement(id: Utf8.Text, sequence: nat, next: Utf8.Text) returns (ok: bool)
      requires Good(View()) && sequence <= SAFE && IsIdentifier(next)
      modifies this
      ensures (View(), ok) == Acked(old(View()), id, sequence, next)
    {
      if inFlight.None? || inFlight.value.id != id || sequence < acknowledged || sequence > acknowledged + 1 {
        return false;
      }
      acknowledged := sequence;
      acked := acked + [inFlight.value.entry];
      inFlight := None;
      Pump(next);
      return true;
    }

    /** ReceiveCheckpoint: the text that the promise resolves with; None stands for a thrown error. */
    method ReceiveCheckpoint(id: Utf8.Text, sequence: nat, state: nat) returns (r: Option<Document>)
      requires Good(View())
      modifies this`request
      ensures r.Some? <==> old(request).Some? && state == 2 && sequence == acknowledged && id != []
      ensures r.Some? ==> r == old(request) && request == None
      ensures r.None? ==> request == old(request)
      ensures r.Some? && sequence == requestedAt ==>
        Locals(r.value) <= Updates(acked) && Remotes(r.value) == Remotes(document)
    {
      if request.None? || state != 2 || sequence != acknowledged || |id| == 0 { return None; }
      r := request;
      request := None;
    }

    /** Receive, called from the message listener, which fails the session on a thrown error. */
    method Receive(bytes: seq<Byte>, next: Utf8.Text, presence: bool)
      requires Good(View()) && IsIdentifier(next)
      modifies this
      ensures View() == Next(old(View()), Message(bytes, next, presence)) && Good(View())
    {
      MessageKeepsGood(View(), bytes, next, presence);
      SequencesAreSafe(bytes);
      if !open { return; }
      Handle(Classify(bytes), next, presence);
    }

    method Handle(f: Incoming, next: Utf8.Text, presence: bool)
      requires Good(View()) && IsIdentifier(next) && (f.Sync? || f.Acknowledgement? ==> f.sequence <= SAFE)
      modifies this
      ensures View() == Handled(old(View()), f, next, presence)
    {
      var ok := true;
      match f {
        case Sync(_, _, _, _, _) => ok := ReceiveSync(f);
        case Acknowledgement(id, sequence) => ok := ReceiveAcknowledgement(id, sequence, next);
        case Presence => ok := presence;
        case Checkpoint(id, sequence, state) =>
          var saved := ReceiveCheckpoint(id, sequence, state);
          ok := saved.Some?;
        case Refusal => Fail();
        case Heartbeat =>
        case Invalid => ok := false;
      }
      if !ok { Fail(); }
    }
  }
}
