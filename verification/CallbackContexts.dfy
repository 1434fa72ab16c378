/**
 * The bounded cache that carries a callback's revision from its receipt to its
 * write (adapters/onlyoffice/src/runtime.rs, CallbackContexts).
 *
 * The source keeps a map and a queue of its keys.  The reference is one list
 * of bindings, oldest first.
 */
module CallbackContexts {
  import opened Prelude

  const MAX_CALLBACK_CONTEXTS: nat := 1024

  type Fingerprint = seq<Byte>
  type Revision = seq<Byte>
  type Binding = (Fingerprint, Revision)

  // ---- The reference: a recency list ------------------------------------------

  function Without(list: seq<Binding>, key: Fingerprint): seq<Binding> {
    if list == [] then []
    else (if list[0].0 == key then [] else [list[0]]) + Without(list[1..], key)
  }

  /** Move or add a binding to the back, and drop the front when the list is over its bound. */
  function Remembered(list: seq<Binding>, key: Fingerprint, revision: Revision): seq<Binding> {
    var moved := Without(list, key) + [(key, revision)];
    if |moved| > MAX_CALLBACK_CONTEXTS then moved[1..] else moved
  }

  predicate Distinct(list: seq<Binding>) {
    forall i, j | 0 <= i < j < |list| :: list[i].0 != list[j].0
  }

  /** What a key is bound to, if anything. */
  function Lookup(list: seq<Binding>, key: Fingerprint): Option<Revision> {
    if list == [] then None
    else if list[0].0 == key then Some(list[0].1)
    else Lookup(list[1..], key)
  }

  lemma {:induction false} LookupIff(list: seq<Binding>, key: Fingerprint, revision: Revision)
    requires Distinct(list)
    ensures Lookup(list, key) == Some(revision) <==> (key, revision) in list
    ensures Lookup(list, key).None? <==> forall b | b in list :: b.0 != key
  {
    if list != [] {
      LookupIff(list[1..], key, revision);
      assert forall b | b in list[1..] :: b.0 != list[0].0 by {
        forall b | b in list[1..] ensures b.0 != list[0].0 {
          var i :| 0 <= i < |list[1..]| && list[1..][i] == b;
          assert list[i + 1] == b;
        }
      }
      assert forall b | b in list :: b == list[0] || b in list[1..];
    }
  }

  // ---- The source: a map and a queue of keys -------------------------------------

  /** VecDeque::retain with a single key excluded. */
  function Retain(order: seq<Fingerprint>, key: Fingerprint): (kept: seq<Fingerprint>)
    ensures |kept| <= |order|
  {
    if order == [] then []
    else (if order[0] == key then [] else [order[0]]) + Retain(order[1..], key)
  }

  /** The queue names each key of the map once. */
  predicate Consistent(bindings: map<Fingerprint, Revision>, order: seq<Fingerprint>) {
    && (forall k | k in order :: k in bindings)
    && (forall k | k in bindings :: k in order)
    && (forall i, j | 0 <= i < j < |order| :: order[i] != order[j])
  }

  /** The list a map and queue stand for. */
  function Listed(bindings: map<Fingerprint, Revision>, order: seq<Fingerprint>): seq<Binding>
    requires forall k | k in order :: k in bindings
  {
    if order == [] then [] else [(order[0], bindings[order[0]])] + Listed(bindings, order[1..])
  }

  lemma {:induction false} ListedAt(bindings: map<Fingerprint, Revision>, order: seq<Fingerprint>)
    requires forall k | k in order :: k in bindings
    ensures |Listed(bindings, order)| == |order|
    ensures forall i | 0 <= i < |order| :: Listed(bindings, order)[i] == (order[i], bindings[order[i]])
  {
    if order != [] {
      ListedAt(bindings, order[1..]);
    }
  }

  lemma {:induction false} RetainKeeps(order: seq<Fingerprint>, key: Fingerprint)
    requires forall i, j | 0 <= i < j < |order| :: order[i] != order[j]
    ensures var kept := Retain(order, key);
      && (forall k :: k in kept <==> k in order && k != key)
      && (forall i, j | 0 <= i < j < |kept| :: kept[i] != kept[j])
      && (key !in order ==> kept == order)
  {
    if order != [] {
      var rest := order[1..];
      RetainKeeps(rest, key);
      assert forall k :: k in order <==> k == order[0] || k in rest;
      assert forall i | 0 <= i < |rest| :: rest[i] == order[i + 1];
      assert order[0] !in rest;
    }
  }

  lemma {:induction false} ListedRetain(bindings: map<Fingerprint, Revision>, changed: map<Fingerprint, Revision>,
                                        order: seq<Fingerprint>, key: Fingerprint)
    requires forall k | k in order :: k in bindings
    requires forall k | k in order && k != key :: k in changed && changed[k] == bindings[k]
    requires forall k | k in Retain(order, key) :: k in changed
    ensures Listed(changed, Retain(order, key)) == Without(Listed(bindings, order), key)
  {
    if order != [] {
      var rest := order[1..];
      assert forall k | k in rest :: k in order;
      assert forall k | k in Retain(rest, key) :: k in Retain(order, key);
      ListedRetain(bindings, changed, rest, key);
      var kept := Retain(rest, key);
      assert ([order[0]] + kept)[1..] == kept && [] + kept == kept;
      var tail := Listed(bindings, rest);
      assert ([(order[0], bindings[order[0]])] + tail)[1..] == tail;
      assert [] + Without(tail, key) == Without(tail, key);
    }
  }

  lemma {:induction false} ListedSnoc(bindings: map<Fingerprint, Revision>, order: seq<Fingerprint>, key: Fingerprint)
    requires forall k | k in order + [key] :: k in bindings
    ensures (forall k | k in order :: k in bindings)
    ensures Listed(bindings, order + [key]) == Listed(bindings, order) + [(key, bindings[key])]
  {
    assert forall k | k in order :: k in order + [key];
    ListedAt(bindings, order);
    ListedAt(bindings, order + [key]);
  }

  lemma SizeIsLength(bindings: map<Fingerprint, Revision>, order: seq<Fingerprint>)
    requires Consistent(bindings, order)
    ensures |bindings| == |order|
  {
    assert bindings.Keys == set k | k in order;
    DistinctSize(order);
  }

  lemma {:induction false} DistinctSize(order: seq<Fingerprint>)
    requires forall i, j | 0 <= i < j < |order| :: order[i] != order[j]
    ensures |(set k | k in order)| == |order|
  {
    if order != [] {
      var n := |order| - 1;
      DistinctSize(order[..n]);
      assert (set k | k in order) == (set k | k in order[..n]) + {order[n]};
    }
  }

  /** Inserting into the map and moving the key to the back of the queue moves the binding in the list. */
  lemma InsertedIsMoved(bindings: map<Fingerprint, Revision>, order: seq<Fingerprint>,
                        key: Fingerprint, revision: Revision)
    requires Consistent(bindings, order)
    ensures var inserted := bindings[key := revision];
      var moved := Retain(order, key) + [key];
      && (key !in bindings ==> Retain(order, key) == order)
      && Consistent(inserted, moved) && |inserted| == |moved| <= |order| + 1
      && Listed(inserted, moved) == Without(Listed(bindings, order), key) + [(key, revision)]
      && |Listed(inserted, moved)| == |moved|
  {
    var inserted, kept := bindings[key := revision], Retain(order, key);
    RetainKeeps(order, key);
    assert Consistent(inserted, kept + [key]);
    SizeIsLength(inserted, kept + [key]);
    ListedSnoc(inserted, kept, key);
    ListedRetain(bindings, inserted, order, key);
    ListedAt(inserted, kept + [key]);
  }

  class Contexts {
    var byFingerprint: map<Fingerprint, Revision>
    var insertionOrder: seq<Fingerprint>

    ghost predicate Valid()
      reads this
    {
      Consistent(byFingerprint, insertionOrder) && |insertionOrder| <= MAX_CALLBACK_CONTEXTS
    }

    /** The bindings, oldest first. */
    ghost function List(): seq<Binding>
      requires Valid()
      reads this
    {
      Listed(byFingerprint, insertionOrder)
    }

    constructor ()
      ensures Valid() && List() == []
    {
      byFingerprint, insertionOrder := map[], [];
    }

    method Remember(fingerprint: Fingerprint, revision: Revision)
      requires Valid()
      modifies this
      ensures Valid()
      ensures List() == Remembered(old(List()), fingerprint, revision)
    {
      InsertedIsMoved(byFingerprint, insertionOrder, fingerprint, revision);
      if fingerprint in byFingerprint {
        insertionOrder := Retain(insertionOrder, fingerprint);
      }
      byFingerprint := byFingerprint[fingerprint := revision];
      insertionOrder := insertionOrder + [fingerprint];
      Evict();
    }

    /** The eviction loop of `remember`. */
    method Evict()
      requires Consistent(byFingerprint, insertionOrder) && |insertionOrder| <= MAX_CALLBACK_CONTEXTS + 1
      modifies this
      ensures Valid()
      ensures var before := old(Listed(byFingerprint, insertionOrder));
        && |before| == |old(insertionOrder)|
        && List() == if |before| > MAX_CALLBACK_CONTEXTS then before[1..] else before
    {
      ListedAt(byFingerprint, insertionOrder);
      SizeIsLength(byFingerprint, insertionOrder);
      while |byFingerprint| > MAX_CALLBACK_CONTEXTS
        invariant Consistent(byFingerprint, insertionOrder) && |byFingerprint| == |insertionOrder|
        invariant unchanged(this) ||
          (&& |old(insertionOrder)| > MAX_CALLBACK_CONTEXTS == |insertionOrder|
           && Listed(byFingerprint, insertionOrder) == old(Listed(byFingerprint, insertionOrder))[1..])
        decreases |insertionOrder|
      {
        if insertionOrder == [] { break; }
        var evicted := insertionOrder[0];
        DropFirst(byFingerprint, insertionOrder);
        insertionOrder := insertionOrder[1..];
        byFingerprint := byFingerprint - {evicted};
        SizeIsLength(byFingerprint, insertionOrder);
      }
    }

    method Remove(fingerprint: Fingerprint)
      requires Valid()
      modifies this
      ensures Valid()
      ensures List() == Without(old(List()), fingerprint)
    {
      RetainKeeps(insertionOrder, fingerprint);
      ghost var bindings := byFingerprint;
      byFingerprint := byFingerprint - {fingerprint};
      ListedRetain(bindings, byFingerprint, insertionOrder, fingerprint);
      insertionOrder := Retain(insertionOrder, fingerprint);
    }

    method Get(fingerprint: Fingerprint) returns (revision: Option<Revision>)
      requires Valid()
      ensures revision == Lookup(List(), fingerprint)
    {
      ListedAt(byFingerprint, insertionOrder);
      if fingerprint in byFingerprint {
        revision := Some(byFingerprint[fingerprint]);
        LookupIff(List(), fingerprint, byFingerprint[fingerprint]);
        var i :| 0 <= i < |insertionOrder| && insertionOrder[i] == fingerprint;
        assert List()[i] == (fingerprint, byFingerprint[fingerprint]);
      } else {
        revision := None;
        LookupIff(List(), fingerprint, []);
      }
    }
  }

  lemma DropFirst(bindings: map<Fingerprint, Revision>, order: seq<Fingerprint>)
    requires Consistent(bindings, order) && order != []
    ensures Consistent(bindings - {order[0]}, order[1..])
    ensures |Listed(bindings, order)| == |order|
    ensures Listed(bindings - {order[0]}, order[1..]) == Listed(bindings, order)[1..]
  {
    FirstIsUnique(order);
    FewerAreConsistent(bindings, order);
    ListedAt(bindings, order);
    ListedAt(bindings - {order[0]}, order[1..]);
  }

  lemma FirstIsUnique(order: seq<Fingerprint>)
    requires order != [] && forall i, j | 0 <= i < j < |order| :: order[i] != order[j]
    ensures order[0] !in order[1..] && forall k :: k in order <==> k == order[0] || k in order[1..]
  {
    assert forall i | 0 <= i < |order[1..]| :: order[1..][i] == order[i + 1];
    assert order == [order[0]] + order[1..];
  }

  lemma FewerAreConsistent(bindings: map<Fingerprint, Revision>, order: seq<Fingerprint>)
    requires Consistent(bindings, order) && order != []
    ensures Consistent(bindings - {order[0]}, order[1..])
  {
    FirstIsUnique(order);
    assert forall i | 0 <= i < |order[1..]| :: order[1..][i] == order[i + 1];
  }

  // ---- What a caller may rely on --------------------------------------------------

  /** What later callbacks do to the list: a receipt remembers a key, a completed callback removes it. */
  datatype Operation = RememberKey(key: Fingerprint, revision: Revision) | RemoveKey(key: Fingerprint)

  function Apply(list: seq<Binding>, op: Operation): seq<Binding> {
    match op
    case RememberKey(key, revision) => Remembered(list, key, revision)
    case RemoveKey(key) => Without(list, key)
  }

  function ApplyAll(list: seq<Binding>, later: seq<Operation>): seq<Binding>
    decreases |later|
  {
    if later == [] then list else ApplyAll(Apply(list, later[0]), later[1..])
  }

  /** The keys more recent than a binding: a remembered key joins them, a removed one leaves. */
  function Joined(behind: set<Fingerprint>, op: Operation): set<Fingerprint> {
    if op.RememberKey? then behind + {op.key} else behind - {op.key}
  }

  /** There are fewer than 1024 of them at all times. */
  predicate NeverFull(behind: set<Fingerprint>, later: seq<Operation>)
    decreases |later|
  {
    |behind| < MAX_CALLBACK_CONTEXTS && (later != [] ==> NeverFull(Joined(behind, later[0]), later[1..]))
  }

  predicate Spares(later: seq<Operation>, key: Fingerprint) {
    forall i | 0 <= i < |later| :: later[i].key != key
  }

  function KeySet(list: seq<Binding>): set<Fingerprint> {
    if list == [] then {} else {list[0].0} + KeySet(list[1..])
  }

  lemma {:induction false} KeySetIff(list: seq<Binding>, key: Fingerprint)
    ensures key in KeySet(list) <==> exists i | 0 <= i < |list| :: list[i].0 == key
  {
    if list != [] {
      KeySetIff(list[1..], key);
      if i :| 0 <= i < |list| && list[i].0 == key { assert i > 0 ==> list[1..][i - 1].0 == key; }
      if i :| 0 <= i < |list[1..]| && list[1..][i].0 == key { assert list[i + 1].0 == key; }
    }
  }

  lemma {:induction false} KeySetSnoc(list: seq<Binding>, b: Binding)
    ensures KeySet(list + [b]) == KeySet(list) + {b.0}
  {
    if list != [] {
      KeySetSnoc(list[1..], b);
      assert (list + [b])[1..] == list[1..] + [b];
    }
  }

  lemma {:induction false} KeySetSize(list: seq<Binding>)
    requires Distinct(list)
    ensures |KeySet(list)| == |list|
  {
    if list != [] {
      KeySetSize(list[1..]);
      KeySetIff(list[1..], list[0].0);
      assert forall i | 0 <= i < |list[1..]| :: list[1..][i] == list[i + 1];
    }
  }

  lemma {:induction false} KeySetWithout(list: seq<Binding>, key: Fingerprint)
    ensures KeySet(Without(list, key)) == KeySet(list) - {key} && |Without(list, key)| <= |list|
  {
    if list != [] {
      KeySetWithout(list[1..], key);
      assert ([list[0]] + Without(list[1..], key))[1..] == Without(list[1..], key);
      assert [] + Without(list[1..], key) == Without(list[1..], key);
    }
  }

  lemma {:induction false} WithoutAppend(a: seq<Binding>, b: seq<Binding>, key: Fingerprint)
    ensures Without(a + b, key) == Without(a, key) + Without(b, key)
  {
    if a == [] {
      assert a + b == b;
    } else {
      assert (a + b)[1..] == a[1..] + b;
      WithoutAppend(a[1..], b, key);
    }
  }

  lemma DistinctTail(list: seq<Binding>)
    requires Distinct(list) && list != []
    ensures Distinct(list[1..]) && list[0].0 !in KeySet(list[1..])
  {
    var tail := list[1..];
    assert forall i | 0 <= i < |tail| :: tail[i] == list[i + 1];
    KeySetIff(tail, list[0].0);
  }

  lemma DistinctSnoc(list: seq<Binding>, b: Binding)
    requires Distinct(list) && b.0 !in KeySet(list)
    ensures Distinct(list + [b])
  {
    KeySetIff(list, b.0);
  }

  lemma DistinctCons(b: Binding, list: seq<Binding>)
    requires Distinct(list) && b.0 !in KeySet(list)
    ensures Distinct([b] + list)
  {
    KeySetIff(list, b.0);
  }

  lemma {:induction false} DistinctWithout(list: seq<Binding>, key: Fingerprint)
    requires Distinct(list)
    ensures Distinct(Without(list, key))
  {
    if list != [] {
      var rest := Without(list[1..], key);
      DistinctTail(list);
      DistinctWithout(list[1..], key);
      KeySetWithout(list[1..], key);
      DistinctCons(list[0], rest);
      assert [] + rest == rest;
    }
  }

  lemma DistinctMoved(list: seq<Binding>, b: Binding)
    requires Distinct(list)
    ensures Distinct(Without(list, b.0) + [b])
  {
    DistinctWithout(list, b.0);
    KeySetWithout(list, b.0);
    DistinctSnoc(Without(list, b.0), b);
  }

  /** A key that is not bound and not remembered again stays unbound. */
  lemma {:induction false} UnboundStays(list: seq<Binding>, key: Fingerprint, later: seq<Operation>)
    requires Distinct(list) && key !in KeySet(list) && Spares(later, key)
    ensures Lookup(ApplyAll(list, later), key).None?
    decreases |later|
  {
    if later == [] {
      KeySetIff(list, key);
      LookupIff(list, key, []);
    } else {
      UnboundStep(list, key, later[0]);
      UnboundStays(Apply(list, later[0]), key, later[1..]);
    }
  }

  lemma UnboundStep(list: seq<Binding>, key: Fingerprint, op: Operation)
    requires Distinct(list) && key !in KeySet(list) && op.key != key
    ensures Distinct(Apply(list, op)) && key !in KeySet(Apply(list, op))
  {
    var kept := Without(list, op.key);
    DistinctWithout(list, op.key);
    KeySetWithout(list, op.key);
    if op.RememberKey? {
      var b := (op.key, op.revision);
      DistinctMoved(list, b);
      KeySetSnoc(kept, b);
      DistinctTail(kept + [b]);
      assert KeySet((kept + [b])[1..]) <= KeySet(kept + [b]);
    }
  }

  lemma WithoutSplit(front: seq<Binding>, mine: Binding, back: seq<Binding>, key: Fingerprint)
    requires mine.0 != key
    ensures Without(front + [mine] + back, key) == Without(front, key) + [mine] + Without(back, key)
  {
    WithoutAppend(front + [mine], back, key);
    WithoutAppend(front, [mine], key);
    assert [mine][1..] == [] && Without([mine], key) == [mine] + [];
  }

  /** Remembering another key: what was before and behind a binding stays so, and the key is behind it. */
  lemma SplitMoved(front: seq<Binding>, mine: Binding, back: seq<Binding>, b: Binding)
    requires mine.0 != b.0 && Distinct(front + [mine] + back)
    ensures var front1, back1 := Without(front, b.0), Without(back, b.0) + [b];
      && Without(front + [mine] + back, b.0) + [b] == front1 + [mine] + back1
      && Distinct(front1 + [mine] + back1) && KeySet(back1) == KeySet(back) + {b.0}
      && |front1| <= |front| && |back1| <= |back| + 1
  {
    WithoutSplit(front, mine, back, b.0);
    Regroup(Without(front, b.0) + [mine], Without(back, b.0), [b]);
    DistinctMoved(front + [mine] + back, b);
    KeySetWithout(front, b.0);
    KeySetWithout(back, b.0);
    KeySetSnoc(Without(back, b.0), b);
  }

  lemma StillThere(front: seq<Binding>, mine: Binding, back: seq<Binding>)
    requires Distinct(front + [mine] + back)
    ensures Lookup(front + [mine] + back, mine.0) == Some(mine.1) && |KeySet(back)| == |back|
  {
    var list := front + [mine] + back;
    assert list[|front|] == mine;
    LookupIff(list, mine.0, mine.1);
    DistinctPart(list, |front| + 1, back);
  }

  /** A binding with others behind it survives later callbacks iff the keys behind it never come to be 1024. */
  lemma {:induction false} SurvivesIff(front: seq<Binding>, mine: Binding, back: seq<Binding>, later: seq<Operation>)
    requires Distinct(front + [mine] + back) && |front| + 1 + |back| <= MAX_CALLBACK_CONTEXTS
    requires Spares(later, mine.0)
    ensures Lookup(ApplyAll(front + [mine] + back, later), mine.0) == Some(mine.1) <==> NeverFull(KeySet(back), later)
    decreases |later|, 1
  {
    StillThere(front, mine, back);
    if later != [] {
      if later[0].RememberKey? {
        SurvivesRemember(front, mine, back, later);
      } else {
        var key := later[0].key;
        WithoutSplit(front, mine, back, key);
        DistinctWithout(front + [mine] + back, key);
        KeySetWithout(front, key);
        KeySetWithout(back, key);
        SurvivesIff(Without(front, key), mine, Without(back, key), later[1..]);
      }
    }
  }

  lemma {:induction false} SurvivesRemember(front: seq<Binding>, mine: Binding, back: seq<Binding>,
                                            later: seq<Operation>)
    requires Distinct(front + [mine] + back) && |front| + 1 + |back| <= MAX_CALLBACK_CONTEXTS
    requires Spares(later, mine.0) && later != [] && later[0].RememberKey?
    ensures Lookup(ApplyAll(front + [mine] + back, later), mine.0) == Some(mine.1)
      <==> NeverFull(Joined(KeySet(back), later[0]), later[1..])
    decreases |later|, 0
  {
    var b := (later[0].key, later[0].revision);
    SplitMoved(front, mine, back, b);
    var front1, back1 := Without(front, b.0), Without(back, b.0) + [b];
    if |front1| + 1 + |back1| <= MAX_CALLBACK_CONTEXTS {
      SurvivesIff(front1, mine, back1, later[1..]);
    } else if front1 != [] {
      FrontDropped(front1, mine, back1);
      SurvivesIff(front1[1..], mine, back1, later[1..]);
    } else {
      assert front1 + [mine] + back1 == [mine] + back1 && ([mine] + back1)[1..] == back1;
      Dropped(mine, back1, later[1..]);
    }
  }

  lemma FrontDropped(front: seq<Binding>, mine: Binding, back: seq<Binding>)
    requires front != [] && Distinct(front + [mine] + back)
    ensures (front + [mine] + back)[1..] == front[1..] + [mine] + back
    ensures Distinct(front[1..] + [mine] + back)
  {
    DistinctTail(front + [mine] + back);
  }

  lemma DistinctPart(list: seq<Binding>, i: nat, part: seq<Binding>)
    requires Distinct(list) && i <= |list| && part == list[i..]
    ensures Distinct(part) && |KeySet(part)| == |part|
  {
    assert forall j | 0 <= j < |part| :: part[j] == list[i + j];
    KeySetSize(part);
  }

  /** The oldest of 1025 bindings is dropped and stays away. */
  lemma Dropped(mine: Binding, back: seq<Binding>, later: seq<Operation>)
    requires Distinct([mine] + back) && |back| == MAX_CALLBACK_CONTEXTS && Spares(later, mine.0)
    ensures Lookup(ApplyAll(back, later), mine.0).None? && |KeySet(back)| == MAX_CALLBACK_CONTEXTS
  {
    var list := [mine] + back;
    DistinctPart(list, 1, back);
    DistinctTail(list);
    UnboundStays(back, mine.0, later);
  }

  /**
   * A remembered binding is still there after any callbacks with other fingerprints iff,
   * of the keys remembered since and not removed again, there were never 1024.
   */
  lemma RememberedSurvivesIff(list: seq<Binding>, key: Fingerprint, revision: Revision, later: seq<Operation>)
    requires Distinct(list) && |list| <= MAX_CALLBACK_CONTEXTS && Spares(later, key)
    ensures Lookup(ApplyAll(Remembered(list, key, revision), later), key) == Some(revision) <==> NeverFull({}, later)
  {
    var mine := (key, revision);
    var kept := Without(list, key);
    DistinctMoved(list, mine);
    KeySetWithout(list, key);
    var front := if |kept| + 1 > MAX_CALLBACK_CONTEXTS then kept[1..] else kept;
    assert Remembered(list, key, revision) == front + [mine] + [];
    if kept != [] { FrontDropped(kept, mine, []); assert kept + [mine] + [] == kept + [mine]; }
    SurvivesIff(front, mine, [], later);
  }
}
