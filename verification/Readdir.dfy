/**
 * READDIR over a paged server listing
 * (adapters/nfs/ganesha-fsal-filebelt/filebelt_handle.c, remember_readdir,
 * resume_readdir and filebelt_readdir).
 *
 * An NFS client continues a listing by handing back the cookie of the last
 * entry it saw.  The server pages its listing under cursors of its own.  Each
 * directory handle keeps a ring of the 64 most recent translations.
 */
module Readdir {
  import opened Prelude

  const SLOTS: nat := 64
  const CURSOR_BYTES: nat := 1025
  /** The entries asked for in one page. */
  const LIST_LIMIT: nat := 256

  /** Ganesha's first cookie that names an entry; 0 asks for the beginning. */
  const FIRST_COOKIE: nat := 3

  type Entry = seq<Byte>
  type PageCursor = seq<Byte>

  // ---- The server's unchanged listing ---------------------------------------

  datatype Page = Page(start: nat, size: nat, next: PageCursor, eof: bool)

  /** The cursors that filebelt_copy_slice copies: C strings that are not empty and fit. */
  predicate Usable(c: PageCursor) { 0 < |c| < CURSOR_BYTES && 0 !in c }

  /** A listing, and the page behind each cursor that the adapter can send. */
  datatype Server = Server(listing: seq<Entry>, pages: map<PageCursor, Page>) {
    /**
     * Every cursor names a consecutive part of one listing, and a usable next
     * cursor the part after it; nothing is asked of an unusable one.
     */
    ghost predicate Consistent() {
      && |listing| + FIRST_COOKIE < U64
      && [] in pages && pages[[]].start == 0
      && forall c {:trigger Chained(c)} | c in pages :: Chained(c)
    }

    predicate Chained(c: PageCursor)
      requires c in pages
    {
      var page := pages[c];
      && (c == [] || Usable(c))
      // A page arrives in one frame, so its entries can be counted in 32 bits.
      && page.start + page.size <= |listing| && page.size <= MAX_FRAME_BYTES
      && (page.eof ==> page.start + page.size == |listing|)
      && (!page.eof && Usable(page.next) ==>
            page.next in pages && pages[page.next].start == page.start + page.size)
    }

    /** An empty page is the end, flagged or not. */
    ghost predicate NoIdlePages() {
      forall c | c in pages :: pages[c].size > 0 || pages[c].eof || !Usable(pages[c].next)
    }

    /** A page after which the adapter cannot go on ends at this position. */
    ghost predicate Broken(position: nat) {
      exists c | c in pages ::
        pages[c].start + pages[c].size == position && !pages[c].eof && !Usable(pages[c].next)
    }

    /** Every page before the end of the listing can be followed. */
    ghost predicate Unbroken() {
      forall c | c in pages && !pages[c].eof && !Usable(pages[c].next) :: pages[c].start + pages[c].size == |listing|
    }

    /**
     * What the list handler of source/apps/filebelt-vfs/src/nfs_dispatch.rs sends: full
     * pages before the last, no cursor with the last, and the end never flagged.
     */
    ghost predicate FromHandler() {
      forall c | c in pages ::
        var page := pages[c];
        && !page.eof && page.size <= LIST_LIMIT
        && if page.start + page.size == |listing| then page.next == [] else page.size == LIST_LIMIT && page.next != []
    }
  }

  // ---- The ring ----------------------------------------------------------------

  datatype Slot = Slot(cookie: nat, skip: nat, cursor: PageCursor)

  const EMPTY: Slot := Slot(0, 0, [])

  /** The number of entries before the position that a cookie names. */
  function PositionOf(cookie: nat): nat {
    if cookie < FIRST_COOKIE then 0 else cookie - (FIRST_COOKIE - 1)
  }

  /** A translation is exact: the start of its page plus its skip is the position its cookie names. */
  predicate Exact(server: Server, slot: Slot) {
    slot.cookie != 0 ==>
      && slot.cookie >= FIRST_COOKIE - 1
      && slot.cursor in server.pages
      && slot.skip <= server.pages[slot.cursor].size
      && server.pages[slot.cursor].start + slot.skip == PositionOf(slot.cookie)
  }

  /** The first slot in array order that holds a cookie; the length if none does. */
  function Find(slots: seq<Slot>, cookie: nat): (i: nat)
    ensures i <= |slots|
    ensures i < |slots| ==> slots[i].cookie == cookie
    ensures forall j | 0 <= j < i :: slots[j].cookie != cookie
  {
    if slots == [] || slots[0].cookie == cookie then 0 else
      var i := Find(slots[1..], cookie);
      assert forall j | 1 <= j < i + 1 :: slots[j] == slots[1..][j - 1];
      1 + i
  }

  datatype Status = Success | BadCookie | CallFailed | ServerFault | NoMemory

  /** A page entry that cannot be decoded, or for which there is no memory. */
  datatype Fault = NoFault | Undecodable(at: nat) | Unallocated(at: nat)

  datatype Delivery = Delivery(name: Entry, cookie: nat)

  /** The entries from a position on, with the cookies the protocol gives them. */
  predicate Consecutive(listing: seq<Entry>, position: nat, delivered: seq<Delivery>) {
    && position + |delivered| <= |listing|
    && forall k | 0 <= k < |delivered| ::
         delivered[k] == Delivery(listing[position + k], FIRST_COOKIE + position + k)
  }

  /** The ring holds exactly the last 64 of everything ever remembered. */
  predicate RingHolds(slots: seq<Slot>, nextSlot: nat, log: seq<Slot>) {
    && |slots| == SLOTS <= |log|
    && nextSlot == |log| % SLOTS
    && forall k | |log| - SLOTS <= k < |log| :: slots[k % SLOTS] == log[k]
  }

  /** A cookie can be resumed iff it is among the last 64 remembered. */
  predicate Recent(log: seq<Slot>, cookie: nat)
    requires |log| >= SLOTS
  {
    exists k | |log| - SLOTS <= k < |log| :: log[k].cookie == cookie
  }

  /** Every translation ever remembered is exact for this listing. */
  ghost predicate Sound(server: Server, log: seq<Slot>) {
    server.Consistent() && forall k | 0 <= k < |log| :: Exact(server, log[k])
  }

  /** The log index behind a slot. */
  function Age(nextSlot: nat, logged: nat, i: nat): int {
    if i < nextSlot then logged - nextSlot + i else logged - nextSlot + i - SLOTS
  }

  lemma SlotIsLogged(slots: seq<Slot>, nextSlot: nat, log: seq<Slot>, i: nat)
    requires RingHolds(slots, nextSlot, log) && i < SLOTS
    ensures |log| - SLOTS <= Age(nextSlot, |log|, i) < |log|
    ensures slots[i] == log[Age(nextSlot, |log|, i)] && Age(nextSlot, |log|, i) % SLOTS == i
  {
    assert Age(nextSlot, |log|, i) % SLOTS == i;
  }

  lemma FindIffRecent(slots: seq<Slot>, nextSlot: nat, log: seq<Slot>, cookie: nat)
    requires RingHolds(slots, nextSlot, log)
    ensures Find(slots, cookie) < SLOTS <==> Recent(log, cookie)
  {
    var i := Find(slots, cookie);
    if i < SLOTS {
      SlotIsLogged(slots, nextSlot, log, i);
      assert log[Age(nextSlot, |log|, i)].cookie == cookie;
    } else {
      forall k | |log| - SLOTS <= k < |log| ensures log[k].cookie != cookie {
        assert slots[k % SLOTS] == log[k];
      }
    }
  }

  // ---- One page -------------------------------------------------------------------

  /** How the loop over a page ends: entries delivered, status, end of listing, next page remembered. */
  datatype Ending = Ending(count: nat, status: Status, eof: bool, closes: bool)

  /** The loop over a page from entry `skip`, of whose callbacks the limit-th asks to stop (0: none). */
  function EndingOf(page: Page, skip: nat, limit: nat, fault: Fault): Ending
    requires skip <= page.size
  {
    var left := page.size - skip;
    var sound := if !fault.NoFault? && skip <= fault.at < page.size then fault.at - skip else left;
    if 0 < limit <= sound then Ending(limit, Success, false, false)
    else if sound < left then Ending(sound, if fault.Undecodable? then ServerFault else NoMemory, page.eof, false)
    else if page.eof then Ending(left, Success, true, false)
    else if Usable(page.next) then Ending(left, Success, false, true)
    else Ending(left, ServerFault, false, false)
  }

  /** The translations remembered for the first `count` entries delivered from entry `skip` of a page. */
  function Trail(page: Page, cursor: PageCursor, skip: nat, count: nat): seq<Slot> {
    seq(count, k requires 0 <= k => Slot(FIRST_COOKIE + page.start + skip + k, skip + k + 1, cursor))
  }

  function Deliveries(page: Page, entries: seq<Entry>, skip: nat, count: nat): seq<Delivery>
    requires skip + count <= |entries|
  {
    seq(count, k requires 0 <= k < count => Delivery(entries[skip + k], FIRST_COOKIE + page.start + skip + k))
  }

  function Closing(page: Page, skip: nat, ending: Ending): seq<Slot> {
    if ending.closes then [Slot(FIRST_COOKIE - 1 + page.start + skip + ending.count, 0, page.next)] else []
  }

  lemma PageSnoc(page: Page, entries: seq<Entry>, cursor: PageCursor, skip: nat, count: nat)
    requires skip + count < |entries|
    ensures Trail(page, cursor, skip, count + 1) == Trail(page, cursor, skip, count)
      + [Slot(FIRST_COOKIE + page.start + skip + count, skip + count + 1, cursor)]
    ensures Deliveries(page, entries, skip, count + 1) == Deliveries(page, entries, skip, count)
      + [Delivery(entries[skip + count], FIRST_COOKIE + page.start + skip + count)]
  {
  }

  lemma DeliveriesAreConsecutive(listing: seq<Entry>, page: Page, skip: nat, count: nat)
    requires page.start + page.size <= |listing| && skip + count <= page.size
    ensures Consecutive(listing, page.start + skip,
                        Deliveries(page, listing[page.start..page.start + page.size], skip, count))
  {
  }

  lemma SoundAppend(server: Server, log: seq<Slot>, more: seq<Slot>)
    requires Sound(server, log) && forall slot | slot in more :: Exact(server, slot)
    ensures Sound(server, log + more)
  {
    forall k | 0 <= k < |log + more| ensures Exact(server, (log + more)[k]) {
      assert k >= |log| ==> (log + more)[k] in more;
    }
  }

  lemma PageKeepsSound(server: Server, log: seq<Slot>, cursor: PageCursor, skip: nat, ending: Ending)
    requires Sound(server, log)
    requires cursor in server.pages
    requires var page := server.pages[cursor];
      && skip + ending.count <= page.size
      && (ending.closes ==> !page.eof && Usable(page.next) && skip + ending.count == page.size)
    ensures var page := server.pages[cursor];
      Sound(server, log + Trail(page, cursor, skip, ending.count) + Closing(page, skip, ending))
  {
    var page := server.pages[cursor];
    assert server.Chained(cursor);
    SoundAppend(server, log, Trail(page, cursor, skip, ending.count));
    SoundAppend(server, log + Trail(page, cursor, skip, ending.count), Closing(page, skip, ending));
  }

  /** The faulty entry of a page comes next when `count` entries from entry `skip` on were delivered. */
  predicate FaultIsNext(page: Page, skip: nat, count: nat, fault: Fault) {
    !fault.NoFault? && fault.at == skip + count < page.size
  }

  /**
   * What a caller sees of a page read from entry `skip` on: it is read up to its end, to
   * the callback that asks to stop, or to the faulty entry, whichever comes first.
   */
  predicate Obeys(page: Page, skip: nat, limit: nat, fault: Fault,
                  status: Status, count: nat, eof: bool, remembered: nat)
  {
    && skip + count <= page.size
    && (limit > 0 ==> count <= limit)
    && (!fault.NoFault? ==> fault.at < skip || skip + count <= fault.at)
    && (skip + count == page.size || (limit > 0 && count == limit) || FaultIsNext(page, skip, count, fault))
    && (limit > 0 && count == limit ==> status == Success && !eof && remembered == count)
    && ((limit == 0 || count < limit) && FaultIsNext(page, skip, count, fault) ==>
          && status == (if fault.Undecodable? then ServerFault else NoMemory)
          && eof == page.eof && remembered == count)
    && ((limit == 0 || count < limit) && skip + count == page.size ==>
          && eof == page.eof
          && var usable := 0 < |page.next| <= 1024 && 0 !in page.next;
          && status == (if page.eof || usable then Success else ServerFault)
          && remembered == count + if !page.eof && usable then 1 else 0)
  }

  lemma AnswersObey(server: Server, slot: Slot, limit: nat, fault: Fault,
                    status: Status, count: nat, eof: bool, before: seq<Slot>, after: seq<Slot>)
    requires Answers(server, slot, limit, fault, status, count, eof, before, after)
    ensures Obeys(server.pages[slot.cursor], slot.skip, limit, fault, status, count, eof, |after| - |before|)
  {
  }

  /** What a call that starts from a slot returns and remembers. */
  predicate Answers(server: Server, slot: Slot, limit: nat, fault: Fault,
                    status: Status, count: nat, eof: bool, before: seq<Slot>, after: seq<Slot>)
  {
    && slot.cursor in server.pages
    && slot.skip <= server.pages[slot.cursor].size
    && var page := server.pages[slot.cursor];
       var ending := EndingOf(page, slot.skip, limit, fault);
       && status == ending.status && count == ending.count && eof == ending.eof
       && after == before + Trail(page, slot.cursor, slot.skip, count) + Closing(page, slot.skip, ending)
  }

  class Directory {
    const slots: array<Slot>
    var nextSlot: nat
    /** Everything ever remembered, after 64 empty slots. */
    ghost var log: seq<Slot>

    ghost predicate Valid()
      reads this, slots
    {
      RingHolds(slots[..], nextSlot, log)
    }

    constructor ()
      ensures Valid() && fresh(slots) && nextSlot == 0
      ensures log == seq(SLOTS, _ => EMPTY)
    {
      slots := new Slot[SLOTS](_ => EMPTY);
      nextSlot := 0;
      log := seq(SLOTS, _ => EMPTY);
    }

    /** remember_readdir: overwrite the oldest translation. */
    method Remember(cookie: nat, cursor: PageCursor, skip: nat) returns (ok: bool)
      requires Valid()
      modifies this, slots
      ensures Valid()
      ensures ok == (|cursor| < CURSOR_BYTES)
      ensures if ok then log == old(log) + [Slot(cookie, skip, cursor)] else unchanged(this, slots)
    {
      if |cursor| >= CURSOR_BYTES { return false; }
      slots[nextSlot] := Slot(cookie, skip, cursor);
      nextSlot := (nextSlot + 1) % SLOTS;
      log := log + [Slot(cookie, skip, cursor)];
      return true;
    }

    /** resume_readdir: the translation of a cookie, unless it was evicted. */
    method Resume(cookie: nat) returns (found: bool, cursor: PageCursor, skip: nat)
      requires Valid()
      ensures found <==> Recent(log, cookie)
      ensures var i := Find(slots[..], cookie);
        found == (i < SLOTS) && (found ==> slots[i] == Slot(cookie, skip, cursor))
    {
      FindIffRecent(slots[..], nextSlot, log, cookie);
      for index := 0 to SLOTS
        invariant forall j | 0 <= j < index :: slots[..][j].cookie != cookie
      {
        if slots[index].cookie == cookie {
          assert slots[..][index].cookie == cookie;
          return true, slots[index].cursor, slots[index].skip;
        }
      }
      return false, [], 0;
    }

    /** The loop of filebelt_readdir over the entries of one page, from entry `skip` on. */
    method DeliverPage(page: Page, entries: seq<Entry>, cursor: PageCursor, skip: nat, limit: nat, fault: Fault)
        returns (status: Status, delivered: seq<Delivery>, eof: bool)
      requires Valid()
      requires |cursor| < CURSOR_BYTES
      requires |entries| == page.size && skip <= page.size
      modifies this, slots
      ensures Valid()
      ensures var ending := EndingOf(page, skip, limit, fault);
        && status == ending.status && eof == ending.eof
        && delivered == Deliveries(page, entries, skip, ending.count)
        && log == old(log) + Trail(page, cursor, skip, ending.count) + Closing(page, skip, ending)
    {
      delivered, eof := [], page.eof;
      var base := FIRST_COOKIE - 1 + page.start + skip;
      var index := skip;
      while index < page.size
        invariant skip <= index <= page.size && base == FIRST_COOKIE - 1 + page.start + index
        invariant Valid() && log == old(log) + Trail(page, cursor, skip, index - skip)
        invariant delivered == Deliveries(page, entries, skip, index - skip)
        invariant limit == 0 || index - skip < limit
        invariant !fault.NoFault? ==> fault.at < skip || index <= fault.at
      {
        if !fault.NoFault? && index == fault.at {
          return if fault.Undecodable? then ServerFault else NoMemory, delivered, eof;
        }
        var nextCookie := base + 1;
        var remembered := Remember(nextCookie, cursor, index + 1);
        PageSnoc(page, entries, cursor, skip, index - skip);
        delivered := delivered + [Delivery(entries[index], nextCookie)];
        base := nextCookie;
        index := index + 1;
        if |delivered| == limit { return Success, delivered, false; }
      }
      status := Success;
      if !eof {
        if !Usable(page.next) { return ServerFault, delivered, eof; }
        var remembered := Remember(base, page.next, 0);
      }
    }

    /** The part of filebelt_readdir after the cookie is translated and the page is fetched. */
    method Respond(server: Server, ghost slot: Slot, cursor: PageCursor, skip: nat, limit: nat, fault: Fault)
        returns (status: Status, delivered: seq<Delivery>, eof: bool)
      requires Valid() && Sound(server, log)
      requires slot.cookie != 0 && Exact(server, slot) && cursor == slot.cursor && skip == slot.skip
      modifies this, slots
      ensures Valid() && Sound(server, log)
      ensures Consecutive(server.listing, PositionOf(slot.cookie), delivered)
      ensures status == Success && eof ==> PositionOf(slot.cookie) + |delivered| == |server.listing|
      ensures (status == Success && !eof) || delivered != [] ==>
        Recent(log, FIRST_COOKIE - 1 + PositionOf(slot.cookie) + |delivered|)
      ensures delivered == [] && (status != Success || eof) ==> log == old(log)
      ensures Answers(server, slot, limit, fault, status, |delivered|, eof, old(log), log)
    {
      var page := server.pages[cursor];
      assert server.Chained(cursor);
      var entries := server.listing[page.start..page.start + page.size];
      ghost var ending := EndingOf(page, skip, limit, fault);
      PageKeepsSound(server, log, cursor, skip, ending);
      EndingFacts(server, log, cursor, skip, limit, fault);
      DeliveriesAreConsecutive(server.listing, page, skip, ending.count);
      status, delivered, eof := DeliverPage(page, entries, cursor, skip, limit, fault);
    }

    /** The translation a call starts from. */
    ghost function Selected(whence: nat): Slot
      requires Valid() && (whence != 0 ==> Recent(log, whence))
      reads this, slots
    {
      FindIffRecent(slots[..], nextSlot, log, whence);
      if whence == 0 then Slot(FIRST_COOKIE - 1, 0, []) else slots[Find(slots[..], whence)]
    }

    lemma SelectedIsExact(server: Server, whence: nat)
      requires Valid() && Sound(server, log) && (whence != 0 ==> Recent(log, whence))
      ensures Exact(server, Selected(whence))
      ensures Selected(whence).cookie == if whence == 0 then FIRST_COOKIE - 1 else whence
    {
      if whence != 0 {
        FindIffRecent(slots[..], nextSlot, log, whence);
        SlotIsLogged(slots[..], nextSlot, log, Find(slots[..], whence));
      }
    }

    /**
     * filebelt_readdir.  `answered` is whether the list call succeeds; `limit`
     * is the callback invocation that asks to terminate (0: none does).
     */
    method Readdir(server: Server, whence: nat, answered: bool, limit: nat, fault: Fault)
        returns (status: Status, delivered: seq<Delivery>, eof: bool)
      requires Valid() && Sound(server, log)
      modifies this, slots
      ensures Valid() && Sound(server, log)
      // An evicted or never delivered cookie is refused, and nothing else is; a refusal changes nothing.
      ensures status == BadCookie <==> whence != 0 && !old(Recent(log, whence))
      ensures status == CallFailed ==> !answered
      ensures status == BadCookie || status == CallFailed ==> delivered == [] && unchanged(this, slots)
      // Every call delivers exactly the entries that follow the position its cookie names.
      ensures status != BadCookie ==> Consecutive(server.listing, PositionOf(whence), delivered)
      // Unless it reaches the end, the call leaves the position behind its last entry resumable.
      ensures status == Success && eof ==> PositionOf(whence) + |delivered| == |server.listing|
      ensures (status == Success && !eof) || delivered != [] ==>
        Recent(log, FIRST_COOKIE - 1 + PositionOf(whence) + |delivered|)
      ensures delivered == [] && (status != Success || eof) ==> log == old(log)
      // How much is delivered is settled by the slot selected, the callback and the page.
      ensures status != BadCookie && answered ==>
        Answers(server, old(Selected(whence)), limit, fault, status, |delivered|, eof, old(log), log)
      // It ends at the end of the page, where the callback asks to stop, or before the faulty entry.
      ensures status != BadCookie && answered ==>
        && |log| >= |old(log)| && old(Selected(whence)).cursor in server.pages
        && Obeys(server.pages[old(Selected(whence)).cursor], old(Selected(whence)).skip, limit, fault,
                 status, |delivered|, eof, |log| - |old(log)|)
    {
      var cursor: PageCursor, skip := [], 0;
      if whence != 0 {
        var found;
        found, cursor, skip := Resume(whence);
        if !found { return BadCookie, [], false; }
      }
      SelectedIsExact(server, whence);
      ghost var slot := Selected(whence);
      assert server.Chained(slot.cursor);
      if !answered { return CallFailed, [], false; }
      assert slot.cursor == cursor && slot.skip == skip;
      ghost var before := log;
      status, delivered, eof := Respond(server, slot, cursor, skip, limit, fault);
      AnswersObey(server, slot, limit, fault, status, |delivered|, eof, before, log);
    }
  }

  /** A page that is not the last one leaves the position behind its last delivered entry at the end of the log. */
  lemma EndingFacts(server: Server, log: seq<Slot>, cursor: PageCursor, skip: nat, limit: nat, fault: Fault)
    requires server.Consistent() && |log| >= SLOTS
    requires cursor in server.pages && skip <= server.pages[cursor].size
    ensures var page := server.pages[cursor];
      var ending := EndingOf(page, skip, limit, fault);
      var after := log + Trail(page, cursor, skip, ending.count) + Closing(page, skip, ending);
      && (ending.status == Success && ending.eof ==> page.start + skip + ending.count == |server.listing|)
      && ((ending.status == Success && !ending.eof) || ending.count > 0 ==>
            Recent(after, FIRST_COOKIE - 1 + page.start + skip + ending.count))
  {
    var page := server.pages[cursor];
    var ending := EndingOf(page, skip, limit, fault);
    var after := log + Trail(page, cursor, skip, ending.count) + Closing(page, skip, ending);
    assert server.Chained(cursor);
    if (ending.status == Success && !ending.eof) || ending.count > 0 {
      assert after[|after| - 1].cookie == FIRST_COOKIE - 1 + page.start + skip + ending.count;
    }
  }

  // ---- Runs of calls ---------------------------------------------------------------

  /** A call by the client we follow, which continues from its last cookie, or by anyone else. */
  datatype Call =
    | Mine(answered: bool, limit: nat, fault: Fault)
    | Other(whence: nat, answered: bool, limit: nat, fault: Fault)

  lemma ConsecutiveAppend(listing: seq<Entry>, position: nat, a: seq<Delivery>, b: seq<Delivery>)
    requires Consecutive(listing, position, a) && Consecutive(listing, position + |a|, b)
    ensures Consecutive(listing, position, a + b)
  {
  }

  /**
   * Whatever other clients do to the ring in between, what one client has seen
   * is always the listing from its beginning, without a skip or a repetition;
   * a cookie that was evicted is refused, and without other clients none is.
   */
  method FollowClient(directory: Directory, server: Server, script: seq<Call>)
      returns (seen: seq<Delivery>, refused: bool)
    requires directory.Valid() && Sound(server, directory.log)
    modifies directory, directory.slots
    ensures directory.Valid() && Sound(server, directory.log)
    ensures Consecutive(server.listing, 0, seen)
    ensures (forall call | call in script :: call.Mine?) ==> !refused
  {
    seen, refused := [], false;
    var cookie := 0;
    for k := 0 to |script|
      invariant directory.Valid() && Sound(server, directory.log)
      invariant Consecutive(server.listing, 0, seen)
      invariant cookie == if seen == [] then 0 else FIRST_COOKIE - 1 + |seen|
      invariant !refused
      invariant (forall call | call in script :: call.Mine?) ==> cookie == 0 || Recent(directory.log, cookie)
    {
      match script[k]
      case Other(whence, answered, limit, fault) =>
        var status, delivered, eof := directory.Readdir(server, whence, answered, limit, fault);
        assert script[k] in script && script[k].Other?;
      case Mine(answered, limit, fault) =>
        var status, delivered, eof := directory.Readdir(server, cookie, answered, limit, fault);
        if status == BadCookie { return seen, true; }
        ConsecutiveAppend(server.listing, 0, seen, delivered);
        seen := seen + delivered;
        if delivered != [] { cookie := delivered[|delivered| - 1].cookie; }
    }
  }

  /** A call whose cookie is not refused and that nothing stops. */
  method PlainCall(directory: Directory, server: Server, whence: nat, ghost slot: Slot)
      returns (status: Status, delivered: seq<Delivery>, eof: bool)
    requires directory.Valid() && Sound(server, directory.log)
    requires (whence != 0 ==> Recent(directory.log, whence)) && slot == directory.Selected(whence)
    modifies directory, directory.slots
    ensures directory.Valid() && Sound(server, directory.log)
    ensures Consecutive(server.listing, PositionOf(whence), delivered)
    ensures Stalled(status, |delivered|, eof) || delivered != [] ==>
      Recent(directory.log, FIRST_COOKIE - 1 + PositionOf(whence) + |delivered|)
    ensures Answers(server, slot, 0, NoFault, status, |delivered|, eof, old(directory.log), directory.log)
    ensures Stalled(status, |delivered|, eof) <==> AtPageEnd(server, slot)
  {
    directory.SelectedIsExact(server, whence);
    status, delivered, eof := directory.Readdir(server, whence, true, 0, NoFault);
  }

  /** A call stalls when it succeeds, delivers nothing and does not report the end. */
  predicate Stalled(status: Status, count: nat, eof: bool) { status == Success && count == 0 && !eof }

  /** A translation behind the last entry of a page that is not flagged as the last and can be followed. */
  predicate AtPageEnd(server: Server, slot: Slot) {
    && slot.cursor in server.pages
    && var page := server.pages[slot.cursor];
       slot.skip == page.size && !page.eof && Usable(page.next)
  }

  // ---- When a call ends well -------------------------------------------------------------

  /**
   * A call that nothing stops delivers its page to the end.  It succeeds iff that
   * page is flagged as the last or carries a usable cursor for the next one.
   */
  lemma ExhaustedSucceedsIff(server: Server, slot: Slot, status: Status, count: nat, eof: bool,
                             before: seq<Slot>, after: seq<Slot>)
    requires server.Consistent() && slot.cookie != 0 && Exact(server, slot)
    requires Answers(server, slot, 0, NoFault, status, count, eof, before, after)
    ensures var page := server.pages[slot.cursor];
      && slot.skip + count == page.size
      && (status == Success <==> page.eof || Usable(page.next))
      && (status != Success ==> status == ServerFault && server.Broken(PositionOf(slot.cookie) + count))
      && eof == page.eof && (eof ==> PositionOf(slot.cookie) + count == |server.listing|)
  {
    assert server.Chained(slot.cursor);
  }

  /** The cookie behind the last entry of a page. */
  function LastCookie(page: Page): nat { FIRST_COOKIE - 1 + page.start + page.size }

  /**
   * Of the translations of a cookie remembered before, none survives in the ring once
   * `count` entries were delivered and the next page remembered.
   */
  predicate Overwritten(before: seq<Slot>, count: nat, cookie: nat) {
    forall k | 0 <= k < |before| && |before| + count + 1 - SLOTS <= k :: before[k].cookie != cookie
  }

  /** A page with 63 or more entries left overwrites whatever was remembered before. */
  lemma LongPageOverwrites(before: seq<Slot>, count: nat, cookie: nat)
    requires count >= SLOTS - 1
    ensures Overwritten(before, count, cookie)
  {
  }

  /** A page was delivered to its end from a slot, and the start of the next page remembered n times since. */
  predicate Piled(page: Page, slot: Slot, before: seq<Slot>, after: seq<Slot>, n: nat) {
    && slot.skip < page.size
    && after == before + Trail(page, slot.cursor, slot.skip, page.size - slot.skip)
                + seq(n, _ => Slot(LastCookie(page), 0, page.next))
  }

  /** The log index at which the start of the next page was first remembered. */
  function Closed(page: Page, slot: Slot, before: seq<Slot>): nat
    requires slot.skip < page.size
  {
    |before| + page.size - slot.skip
  }

  /** The slots from log index n up to the end of the ring, or none if n falls on its beginning. */
  function StallsLeft(n: nat): nat { (SLOTS - n % SLOTS) % SLOTS }

  lemma StallCount(n: nat, more: nat)
    requires more <= StallsLeft(n)
    ensures (n + more) % SLOTS == 0 <==> more == StallsLeft(n)
    ensures more < StallsLeft(n) ==> 0 < n % SLOTS && n % SLOTS + more < SLOTS
  {
    assert n + more == SLOTS * (n / SLOTS) + (n % SLOTS + more);
  }

  /**
   * If the last translations remembered are the only ones of a cookie in the ring, the
   * oldest of them is selected, unless the newest one went to the first slot.
   */
  lemma ManyCandidates(slots: seq<Slot>, nextSlot: nat, log: seq<Slot>, cookie: nat, n: nat, more: nat)
    requires RingHolds(slots, nextSlot, log) && |log| == n + 1 + more && n > 0
    requires more <= StallsLeft(n)
    requires forall k | n - 1 <= k < |log| :: log[k].cookie == cookie
    requires forall k | 0 <= k < n - 1 && |log| - SLOTS <= k :: log[k].cookie != cookie
    ensures var i := Find(slots, cookie);
      i < SLOTS && slots[i] == log[if more == StallsLeft(n) then n + more else n - 1]
  {
    StallCount(n, more);
    RingAt(slots, nextSlot, log, n + more);
    if more < StallsLeft(n) {
      Before(n);
      RingAt(slots, nextSlot, log, n - 1);
      LowestIsOldest(slots, nextSlot, log, cookie, n, more);
    }
  }

  lemma RingAt(slots: seq<Slot>, nextSlot: nat, log: seq<Slot>, k: nat)
    requires RingHolds(slots, nextSlot, log) && |log| - SLOTS <= k < |log|
    ensures slots[k % SLOTS] == log[k]
  {
  }

  /** Without a wrap the newer translations lie above the oldest one. */
  lemma LowestIsOldest(slots: seq<Slot>, nextSlot: nat, log: seq<Slot>, cookie: nat, n: nat, more: nat)
    requires RingHolds(slots, nextSlot, log) && |log| == n + 1 + more && 0 < n % SLOTS && n % SLOTS + more < SLOTS
    requires forall k | 0 <= k < n - 1 && |log| - SLOTS <= k :: log[k].cookie != cookie
    requires slots[n % SLOTS - 1] == log[n - 1] && log[n - 1].cookie == cookie
    ensures var i := Find(slots, cookie); i < SLOTS && slots[i] == log[n - 1]
  {
    var i := Find(slots, cookie);
    SlotIsLogged(slots, nextSlot, log, i);
    var age := Age(nextSlot, |log|, i);
    if age >= n { Above(n, age, more); }
  }

  lemma Before(n: nat)
    requires n % SLOTS > 0
    ensures (n - 1) % SLOTS == n % SLOTS - 1
  {
    assert n - 1 == SLOTS * (n / SLOTS) + (n % SLOTS - 1);
  }

  lemma Above(n: nat, age: nat, more: nat)
    requires n <= age <= n + more && n % SLOTS + more < SLOTS
    ensures age % SLOTS == n % SLOTS + (age - n)
  {
    assert age == SLOTS * (n / SLOTS) + (n % SLOTS + (age - n));
  }

  /**
   * After a page was delivered to its end the ring holds translations of its last cookie
   * behind its last entry and to the start of the next page.  If no older one survives,
   * the first kind is selected until one of the second kind lies in the first slot.
   */
  lemma NextPageIsSelectedIff(slots: seq<Slot>, nextSlot: nat, before: seq<Slot>, after: seq<Slot>,
                              page: Page, slot: Slot, more: nat)
    requires RingHolds(slots, nextSlot, after) && Piled(page, slot, before, after, more + 1)
    requires Overwritten(before, page.size - slot.skip, LastCookie(page))
    requires more <= StallsLeft(Closed(page, slot, before))
    ensures var i := Find(slots, LastCookie(page));
      i < SLOTS && slots[i] == if more == StallsLeft(Closed(page, slot, before))
                               then Slot(LastCookie(page), 0, page.next)
                               else Slot(LastCookie(page), page.size, slot.cursor)
  {
    PiledCookies(before, after, page, slot, more);
    ManyCandidates(slots, nextSlot, after, LastCookie(page), Closed(page, slot, before), more);
  }

  lemma PiledCookies(before: seq<Slot>, after: seq<Slot>, page: Page, slot: Slot, more: nat)
    requires Piled(page, slot, before, after, more + 1)
    requires Overwritten(before, page.size - slot.skip, LastCookie(page))
    ensures var n := Closed(page, slot, before);
      && |after| == n + 1 + more && n > 0
      && after[n - 1] == Slot(LastCookie(page), page.size, slot.cursor)
      && (forall k | n <= k < |after| :: after[k] == Slot(LastCookie(page), 0, page.next))
      && (forall k | 0 <= k < n - 1 && |after| - SLOTS <= k :: after[k].cookie != LastCookie(page))
  {
    var n := Closed(page, slot, before);
    var trail := Trail(page, slot.cursor, slot.skip, page.size - slot.skip);
    assert after[n - 1] == trail[n - 1 - |before|];
    forall k | 0 <= k < n - 1 && |after| - SLOTS <= k ensures after[k].cookie != LastCookie(page) {
      if k < |before| { assert after[k] == before[k]; } else { assert after[k] == trail[k - |before|]; }
    }
  }

  /** A page that is not the last is delivered to its end. */
  predicate FullPage(server: Server, slot: Slot) {
    && slot.cursor in server.pages
    && var page := server.pages[slot.cursor];
       slot.skip < page.size && !page.eof && Usable(page.next)
  }

  /** A translation behind the last entry of a full page stalls; one to the start of the next page does not. */
  lemma PageEndIffNotWrapped(server: Server, slot: Slot, chosen: Slot, wrapped: bool)
    requires FullPage(server, slot) && server.Chained(slot.cursor) && server.NoIdlePages()
    requires var page := server.pages[slot.cursor];
      chosen == if wrapped then Slot(LastCookie(page), 0, page.next) else Slot(LastCookie(page), page.size, slot.cursor)
    ensures AtPageEnd(server, chosen) <==> !wrapped
  {
  }

  lemma SlotAfter(nextSlot: nat, logged: nat, count: nat)
    requires nextSlot == logged % SLOTS
    ensures (nextSlot + count) % SLOTS == (logged + count) % SLOTS
    ensures StallsLeft(logged + count) == StallsLeft(nextSlot + count)
    ensures StallsLeft(nextSlot + count) == 0 <==> (nextSlot + count) % SLOTS == 0
  {
    assert logged + count == SLOTS * (logged / SLOTS) + (nextSlot + count);
  }

  /** A call that delivers a page to its end. */
  method FinishPage(directory: Directory, server: Server, whence: nat, ghost slot: Slot)
      returns (delivered: seq<Delivery>)
    requires directory.Valid() && Sound(server, directory.log)
    requires (whence != 0 ==> Recent(directory.log, whence)) && slot == directory.Selected(whence)
    requires FullPage(server, slot)
    modifies directory, directory.slots
    ensures directory.Valid() && Sound(server, directory.log)
    ensures Consecutive(server.listing, PositionOf(whence), delivered)
    ensures var page := server.pages[slot.cursor];
      && |delivered| == page.size - slot.skip && delivered[|delivered| - 1].cookie == LastCookie(page)
      && Recent(directory.log, LastCookie(page)) && PositionOf(LastCookie(page)) == PositionOf(whence) + |delivered|
      && Piled(page, slot, old(directory.log), directory.log, 1)
  {
    directory.SelectedIsExact(server, whence);
    assert server.Chained(slot.cursor);
    var status, eof;
    status, delivered, eof := PlainCall(directory, server, whence, slot);
  }

  /**
   * Which calls from the cookie of the last entry stall, after `more` have: if no older
   * translation survives, those before the start of the next page lies in the first slot.
   */
  lemma StallsIff(server: Server, slot: Slot, before: seq<Slot>, slots: seq<Slot>, nextSlot: nat, after: seq<Slot>,
                  more: nat)
    requires FullPage(server, slot) && server.Chained(slot.cursor) && server.NoIdlePages()
    requires var page := server.pages[slot.cursor];
      && Overwritten(before, page.size - slot.skip, LastCookie(page))
      && Piled(page, slot, before, after, more + 1) && RingHolds(slots, nextSlot, after)
      && more <= StallsLeft(Closed(page, slot, before))
    ensures var page := server.pages[slot.cursor];
      var i := Find(slots, LastCookie(page));
      i < SLOTS && (AtPageEnd(server, slots[i]) <==> more < StallsLeft(Closed(page, slot, before)))
  {
    var page := server.pages[slot.cursor];
    NextPageIsSelectedIff(slots, nextSlot, before, after, page, slot, more);
    PageEndIffNotWrapped(server, slot, slots[Find(slots, LastCookie(page))],
                         more == StallsLeft(Closed(page, slot, before)));
  }

  /**
   * Safe, but not always progressing.  A call delivers a page to its end, and the client
   * continues with the cookie of the last entry.  If no older translation of that cookie
   * survives in the ring, the second call stalls unless the translation to the next page
   * came to lie in the first slot.
   */
  method FullPageThenNothing(directory: Directory, server: Server, whence: nat, ghost slot: Slot)
      returns (first: seq<Delivery>, second: seq<Delivery>, status: Status, eof: bool)
    requires directory.Valid() && Sound(server, directory.log) && server.NoIdlePages()
    requires (whence != 0 ==> Recent(directory.log, whence)) && slot == directory.Selected(whence)
    requires FullPage(server, slot)
    modifies directory, directory.slots
    ensures directory.Valid() && Sound(server, directory.log)
    ensures Consecutive(server.listing, PositionOf(whence), first)
    ensures Consecutive(server.listing, PositionOf(whence) + |first|, second)
    ensures |first| == server.pages[slot.cursor].size - slot.skip
    ensures var page := server.pages[slot.cursor];
      Overwritten(old(directory.log), page.size - slot.skip, LastCookie(page)) ==>
        (Stalled(status, |second|, eof) <==> (old(directory.nextSlot) + |first|) % SLOTS != 0)
  {
    ghost var before, page, position := directory.log, server.pages[slot.cursor], directory.nextSlot;
    first := FinishPage(directory, server, whence, slot);
    status, second, eof := CallAfterPage(directory, server, first[|first| - 1].cookie, slot, before, 0);
    SlotAfter(position, |before|, page.size - slot.skip);
    assert Closed(page, slot, before) == |before| + |first|;
  }

  /** A call from the cookie of the last entry, after `more` of them stalled. */
  method CallAfterPage(directory: Directory, server: Server, last: nat,
                       ghost slot: Slot, ghost before: seq<Slot>, ghost more: nat)
      returns (status: Status, delivered: seq<Delivery>, eof: bool)
    requires directory.Valid() && Sound(server, directory.log) && server.NoIdlePages()
    requires FullPage(server, slot) && last == LastCookie(server.pages[slot.cursor]) && Recent(directory.log, last)
    requires var page := server.pages[slot.cursor];
      Piled(page, slot, before, directory.log, more + 1) && more <= StallsLeft(Closed(page, slot, before))
    modifies directory, directory.slots
    ensures directory.Valid() && Sound(server, directory.log)
    ensures Consecutive(server.listing, PositionOf(last), delivered)
    ensures var page := server.pages[slot.cursor];
      Overwritten(before, page.size - slot.skip, last) ==>
        (Stalled(status, |delivered|, eof) <==> more < StallsLeft(Closed(page, slot, before)))
    ensures var page := server.pages[slot.cursor];
      Stalled(status, |delivered|, eof) && Overwritten(before, page.size - slot.skip, last) ==>
        Recent(directory.log, last) && Piled(page, slot, before, directory.log, more + 2)
  {
    ghost var page, log, chosen := server.pages[slot.cursor], directory.log, directory.Selected(last);
    assert server.Chained(slot.cursor);
    ghost var alone := Overwritten(before, page.size - slot.skip, last);
    if alone {
      StallsIff(server, slot, before, directory.slots[..], directory.nextSlot, log, more);
      NextPageIsSelectedIff(directory.slots[..], directory.nextSlot, before, log, page, slot, more);
    }
    status, delivered, eof := PlainCall(directory, server, last, chosen);
    if alone && Stalled(status, |delivered|, eof) {
      PilesUp(page, slot, before, log, directory.log, more + 1);
    }
  }

  lemma PilesUp(page: Page, slot: Slot, before: seq<Slot>, log: seq<Slot>, after: seq<Slot>, n: nat)
    requires Piled(page, slot, before, log, n) && !page.eof && Usable(page.next)
    requires after == log + Trail(page, slot.cursor, page.size, 0)
                      + Closing(page, page.size, EndingOf(page, page.size, 0, NoFault))
    ensures Piled(page, slot, before, after, n + 1)
  {
    var closing := Slot(LastCookie(page), 0, page.next);
    assert Trail(page, slot.cursor, page.size, 0) == [];
    assert after == log + [closing];
    assert seq(n + 1, _ => closing) == seq(n, _ => closing) + [closing];
  }

  /**
   * A client that is alone repeats the call from the last cookie of a page until it gets
   * on: exactly as often as slots are left up to the end of the ring.
   */
  method StallsExactly(directory: Directory, server: Server, whence: nat, ghost slot: Slot)
      returns (first: seq<Delivery>, stalls: nat, second: seq<Delivery>, status: Status, eof: bool)
    requires directory.Valid() && Sound(server, directory.log) && server.NoIdlePages()
    requires (whence != 0 ==> Recent(directory.log, whence)) && slot == directory.Selected(whence)
    requires FullPage(server, slot)
    requires var page := server.pages[slot.cursor];
      Overwritten(directory.log, page.size - slot.skip, LastCookie(page))
    modifies directory, directory.slots
    ensures directory.Valid() && Sound(server, directory.log)
    ensures Consecutive(server.listing, PositionOf(whence), first)
    ensures |first| == server.pages[slot.cursor].size - slot.skip
    ensures stalls == StallsLeft(old(directory.nextSlot) + |first|)
    ensures !Stalled(status, |second|, eof) && Consecutive(server.listing, PositionOf(whence) + |first|, second)
  {
    ghost var before, page := directory.log, server.pages[slot.cursor];
    ghost var n := Closed(page, slot, before);
    SlotAfter(directory.nextSlot, |before|, page.size - slot.skip);
    first := FinishPage(directory, server, whence, slot);
    stalls, second, status, eof := RepeatAfterPage(directory, server, first[|first| - 1].cookie, slot, before);
  }

  method RepeatAfterPage(directory: Directory, server: Server, last: nat, ghost slot: Slot, ghost before: seq<Slot>)
      returns (stalls: nat, delivered: seq<Delivery>, status: Status, eof: bool)
    requires directory.Valid() && Sound(server, directory.log) && server.NoIdlePages()
    requires FullPage(server, slot) && last == LastCookie(server.pages[slot.cursor]) && Recent(directory.log, last)
    requires Overwritten(before, server.pages[slot.cursor].size - slot.skip, last)
    requires Piled(server.pages[slot.cursor], slot, before, directory.log, 1)
    modifies directory, directory.slots
    ensures directory.Valid() && Sound(server, directory.log)
    ensures stalls == StallsLeft(Closed(server.pages[slot.cursor], slot, before))
    ensures !Stalled(status, |delivered|, eof) && Consecutive(server.listing, PositionOf(last), delivered)
  {
    ghost var page := server.pages[slot.cursor];
    ghost var n := Closed(page, slot, before);
    stalls := 0;
    while true
      invariant directory.Valid() && Sound(server, directory.log) && Recent(directory.log, last)
      invariant stalls <= StallsLeft(n)
      invariant Piled(page, slot, before, directory.log, stalls + 1)
      decreases StallsLeft(n) - stalls
    {
      status, delivered, eof := CallAfterPage(directory, server, last, slot, before, stalls);
      if !Stalled(status, |delivered|, eof) { return; }
      stalls := stalls + 1;
    }
  }

  const NEW_LOG: seq<Slot> := seq(SLOTS, _ => EMPTY)
  const LISTING_START: Slot := Slot(FIRST_COOKIE - 1, 0, [])

  /** A new handle after a first page as the list handler sends it. */
  method ReadFirstPage(server: Server) returns (directory: Directory, first: seq<Delivery>)
    requires server.Consistent() && server.FromHandler() && |server.listing| > LIST_LIMIT
    requires Usable(server.pages[[]].next)
    ensures fresh(directory) && fresh(directory.slots) && directory.Valid() && Sound(server, directory.log)
    ensures |first| == LIST_LIMIT == server.pages[[]].size && Consecutive(server.listing, 0, first)
    ensures Piled(server.pages[[]], LISTING_START, NEW_LOG, directory.log, 1) && directory.nextSlot == 1
    ensures Recent(directory.log, FIRST_COOKIE - 1 + LIST_LIMIT)
  {
    assert server.Chained([]);
    directory := new Directory();
    first := FinishPage(directory, server, 0, LISTING_START);
  }

  /**
   * The shortest walk with a stall over pages as the list handler sends them: the first
   * two pages have 256 entries each, and then 63 calls in a row deliver nothing.
   */
  method ThirdCallStalls(server: Server)
      returns (first: seq<Delivery>, second: seq<Delivery>, stalls: nat, third: seq<Delivery>)
    requires server.Consistent() && server.FromHandler() && |server.listing| > 2 * LIST_LIMIT
    requires var second := server.pages[[]].next;
      second in server.pages && Usable(second) && Usable(server.pages[second].next)
    ensures |first| == |second| == LIST_LIMIT && stalls == 63
    ensures Consecutive(server.listing, 0, first) && Consecutive(server.listing, LIST_LIMIT, second)
    ensures Consecutive(server.listing, 2 * LIST_LIMIT, third)
  {
    ghost var page := server.pages[[]];
    assert server.Chained([]) && server.Chained(page.next);
    var directory;
    directory, first := ReadFirstPage(server);
    NextPageIsSelectedIff(directory.slots[..], directory.nextSlot, NEW_LOG, directory.log, page, LISTING_START, 0);
    var last := first[|first| - 1].cookie;
    var status, eof;
    second, stalls, third, status, eof := StallsExactly(directory, server, last, directory.Selected(last));
  }

  /**
   * With an older translation in the ring the position alone does not decide.  After the
   * first page of 256 entries a client rereads its last ten entries.  The ring position
   * and these ten do not add up to a multiple of 64, but the next call does not stall: the
   * first slot still leads to the next page.
   */
  method RereadDoesNotStall(server: Server)
      returns (position: nat, reread: seq<Delivery>, next: seq<Delivery>, status: Status, eof: bool)
    requires server.Consistent() && server.FromHandler() && |server.listing| > LIST_LIMIT
    requires Usable(server.pages[[]].next)
    ensures position == (LIST_LIMIT + 1) % SLOTS && |reread| == 10 && (position + |reread|) % SLOTS != 0
    ensures Consecutive(server.listing, LIST_LIMIT - 10, reread) && Consecutive(server.listing, LIST_LIMIT, next)
    ensures !Stalled(status, |next|, eof)
  {
    var directory, first := ReadFirstPage(server);
    position := directory.nextSlot;
    reread, status, next, eof := RereadTen(directory, server);
  }

  method RereadTen(directory: Directory, server: Server)
      returns (reread: seq<Delivery>, status: Status, next: seq<Delivery>, eof: bool)
    requires directory.Valid() && Sound(server, directory.log) && server.NoIdlePages()
    requires server.pages[[]].size == LIST_LIMIT && FullPage(server, LISTING_START)
    requires Piled(server.pages[[]], LISTING_START, NEW_LOG, directory.log, 1)
    modifies directory, directory.slots
    ensures |reread| == 10 && Consecutive(server.listing, LIST_LIMIT - 10, reread)
    ensures Consecutive(server.listing, LIST_LIMIT, next) && !Stalled(status, |next|, eof)
  {
    ghost var page := server.pages[[]];
    assert server.Chained([]);
    var cookie := FIRST_COOKIE - 1 + LIST_LIMIT - 10;
    TenBeforeLast(directory.slots[..], directory.nextSlot, directory.log, page, cookie);
    ghost var slot, between := Slot(cookie, LIST_LIMIT - 10, []), directory.log;
    reread := FinishPage(directory, server, cookie, slot);
    FirstSlotSurvives(directory.slots[..], directory.nextSlot, directory.log, page, slot, between);
    var last := reread[|reread| - 1].cookie;
    status, next, eof := PlainCall(directory, server, last, Slot(last, 0, page.next));
  }

  lemma TenBeforeLast(slots: seq<Slot>, nextSlot: nat, log: seq<Slot>, page: Page, cookie: nat)
    requires page.start == 0 && page.size == LIST_LIMIT && Piled(page, LISTING_START, NEW_LOG, log, 1)
    requires RingHolds(slots, nextSlot, log) && cookie == FIRST_COOKIE - 1 + LIST_LIMIT - 10
    ensures |log| == SLOTS + LIST_LIMIT + 1 && log[SLOTS + LIST_LIMIT] == Slot(LastCookie(page), 0, page.next)
    ensures Recent(log, cookie) && Find(slots, cookie) < SLOTS
    ensures slots[Find(slots, cookie)] == Slot(cookie, LIST_LIMIT - 10, [])
  {
    var trail := Trail(page, [], 0, LIST_LIMIT);
    assert forall k | SLOTS <= k < SLOTS + LIST_LIMIT :: log[k] == trail[k - SLOTS];
    assert log[SLOTS + LIST_LIMIT - 11].cookie == cookie;
    FindIffRecent(slots, nextSlot, log, cookie);
    SlotIsLogged(slots, nextSlot, log, Find(slots, cookie));
  }

  lemma FirstSlotSurvives(slots: seq<Slot>, nextSlot: nat, log: seq<Slot>, page: Page, slot: Slot, between: seq<Slot>)
    requires page.size == LIST_LIMIT && slot.skip == LIST_LIMIT - 10 && Piled(page, slot, between, log, 1)
    requires |between| == SLOTS + LIST_LIMIT + 1
    requires between[SLOTS + LIST_LIMIT] == Slot(LastCookie(page), 0, page.next)
    requires RingHolds(slots, nextSlot, log)
    ensures Find(slots, LastCookie(page)) == 0 && slots[0] == Slot(LastCookie(page), 0, page.next)
  {
    var k := SLOTS + LIST_LIMIT;
    assert |log| == k + 12 && log[k] == between[k] && k % SLOTS == 0;
    assert slots[k % SLOTS] == log[k];
  }

  // ---- Progress -----------------------------------------------------------------------------

  /** The last n translations all lead from a cookie to the start of a page. */
  predicate Fresh(log: seq<Slot>, n: nat, whence: nat) {
    n <= |log| && forall k | |log| - n <= k < |log| :: log[k].skip == 0 && log[k].cookie == whence
  }

  /** Once the ring holds only translations to the start of a page, one of those is selected. */
  lemma FreshTranslationWins(slots: seq<Slot>, nextSlot: nat, log: seq<Slot>, whence: nat)
    requires RingHolds(slots, nextSlot, log)
    requires Fresh(log, SLOTS, whence)
    ensures Find(slots, whence) < SLOTS && slots[Find(slots, whence)].skip == 0
  {
    assert log[|log| - 1].cookie == whence;
    FindIffRecent(slots, nextSlot, log, whence);
    SlotIsLogged(slots, nextSlot, log, Find(slots, whence));
  }

  /** A call that stalls remembers one more translation to the start of the next page. */
  lemma EmptyCallFreshens(server: Server, slot: Slot, before: seq<Slot>, after: seq<Slot>, n: nat)
    requires server.Consistent() && slot.cookie != 0 && Exact(server, slot)
    requires Answers(server, slot, 0, NoFault, Success, 0, false, before, after)
    requires Fresh(before, n, slot.cookie)
    ensures Fresh(after, n + 1, slot.cookie)
    ensures slot.skip == server.pages[slot.cursor].size
  {
    assert server.Chained(slot.cursor);
    EmptyPageAppends(server.pages[slot.cursor], slot, before, after);
    FreshSnoc(before, after[|after| - 1], n, slot.cookie);
  }

  lemma EmptyPageAppends(page: Page, slot: Slot, before: seq<Slot>, after: seq<Slot>)
    requires slot.skip <= page.size
    requires slot.cookie >= FIRST_COOKIE - 1 && page.start + slot.skip == PositionOf(slot.cookie)
    requires var ending := EndingOf(page, slot.skip, 0, NoFault);
      && ending.count == 0 && ending.status == Success && !ending.eof
      && after == before + Trail(page, slot.cursor, slot.skip, 0) + Closing(page, slot.skip, ending)
    ensures slot.skip == page.size && after == before + [Slot(slot.cookie, 0, page.next)]
  {
    assert before + Trail(page, slot.cursor, slot.skip, 0) == before;
  }

  lemma FreshSnoc(log: seq<Slot>, slot: Slot, n: nat, whence: nat)
    requires Fresh(log, n, whence) && slot.skip == 0 && slot.cookie == whence
    ensures Fresh(log + [slot], n + 1, whence)
  {
  }

  /**
   * A client that repeats a stalled call stalls at most 64 times.  Then it gets entries
   * or the end, or stands behind a page after which the adapter cannot go on.
   */
  method RepeatUntilProgress(directory: Directory, server: Server, whence: nat)
      returns (stalls: nat, status: Status, delivered: seq<Delivery>, eof: bool)
    requires directory.Valid() && Sound(server, directory.log) && server.NoIdlePages()
    requires whence != 0 ==> Recent(directory.log, whence)
    modifies directory, directory.slots
    ensures directory.Valid() && Sound(server, directory.log)
    ensures stalls <= SLOTS
    ensures Consecutive(server.listing, PositionOf(whence), delivered)
    ensures delivered != [] ==> Recent(directory.log, FIRST_COOKIE - 1 + PositionOf(whence) + |delivered|)
    ensures eof ==> status == Success && PositionOf(whence) + |delivered| == |server.listing|
    ensures status == Success ==> delivered != [] || eof
    ensures status != Success ==> status == ServerFault && server.Broken(PositionOf(whence) + |delivered|)
    ensures server.FromHandler() ==> !eof
  {
    stalls := 0;
    ghost var cookie := if whence == 0 then FIRST_COOKIE - 1 else whence;
    while true
      invariant stalls <= SLOTS
      invariant directory.Valid() && Sound(server, directory.log)
      invariant whence != 0 ==> Recent(directory.log, whence)
      invariant Fresh(directory.log, stalls, cookie)
      decreases SLOTS - stalls
    {
      directory.SelectedIsExact(server, whence);
      ghost var slot, before := directory.Selected(whence), directory.log;
      if stalls == SLOTS && whence != 0 {
        FreshTranslationWins(directory.slots[..], directory.nextSlot, before, whence);
      }
      status, delivered, eof := PlainCall(directory, server, whence, slot);
      ExhaustedSucceedsIff(server, slot, status, |delivered|, eof, before, directory.log);
      if !Stalled(status, |delivered|, eof) { return; }
      EmptyCallFreshens(server, slot, before, directory.log, stalls);
      assert stalls < SLOTS;
      stalls := stalls + 1;
    }
  }

  /**
   * A client that reads a listing alone, repeating stalled calls, sees it whole if every
   * cursor inside it is usable.  It learns of the end iff the last page is flagged; with
   * pages as the list handler sends them its last call is always a server fault.
   */
  method ReadListing(directory: Directory, server: Server) returns (seen: seq<Delivery>, status: Status, eof: bool)
    requires directory.Valid() && Sound(server, directory.log) && server.NoIdlePages()
    modifies directory, directory.slots
    ensures directory.Valid() && Sound(server, directory.log)
    ensures Consecutive(server.listing, 0, seen)
    ensures eof ==> status == Success && |seen| == |server.listing|
    ensures !eof ==> status == ServerFault && server.Broken(|seen|)
    ensures server.Unbroken() ==> |seen| == |server.listing|
    ensures server.FromHandler() ==> !eof
  {
    seen := [];
    var cookie := 0;
    while true
      invariant directory.Valid() && Sound(server, directory.log)
      invariant Consecutive(server.listing, 0, seen) && PositionOf(cookie) == |seen|
      invariant cookie != 0 ==> Recent(directory.log, cookie)
      decreases |server.listing| - |seen|
    {
      var stalls, delivered;
      stalls, status, delivered, eof := RepeatUntilProgress(directory, server, cookie);
      ConsecutiveAppend(server.listing, 0, seen, delivered);
      seen := seen + delivered;
      if eof || status != Success { return; }
      cookie := delivered[|delivered| - 1].cookie;
    }
  }
}
