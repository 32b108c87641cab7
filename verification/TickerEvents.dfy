/** The event queue as a sequence: what insertion, removal and dispatching mean, before any linked list. */
module TickerEvents {

  /** ticker_event_t. */
  class TickerEvent {
    var timestamp: nat
    var id: nat
    var next: TickerEvent?

    constructor ()
      ensures next == null
    {
      timestamp, id, next := 0, 0, null;
    }
  }

  datatype Entry = Entry(node: TickerEvent, timestamp: nat, id: nat)

  ghost function Entries(nodes: seq<TickerEvent>): (s: seq<Entry>)
    reads nodes
    ensures |s| == |nodes|
  {
    seq(|nodes|, i requires 0 <= i < |nodes| reads nodes => Entry(nodes[i], nodes[i].timestamp, nodes[i].id))
  }

  /** What `next` must be at place `i` of a chain. */
  function Follower(nodes: seq<TickerEvent>, i: nat): TickerEvent? {
    if i + 1 < |nodes| then nodes[i + 1] else null
  }

  ghost predicate Chained(nodes: seq<TickerEvent>)
    reads nodes
  {
    && (forall i :: 0 <= i < |nodes| ==> nodes[i].next == Follower(nodes, i))
    && (forall i, j :: 0 <= i < j < |nodes| ==> nodes[i] != nodes[j])
  }

  lemma ChainInsert(chain: seq<TickerEvent>, k: nat, obj: TickerEvent)
    requires k <= |chain| && obj !in chain
    requires forall i, j :: 0 <= i < j < |chain| ==> chain[i] != chain[j]
    requires forall i :: 0 <= i < |chain| && i != k - 1 ==> chain[i].next == Follower(chain, i)
    requires k > 0 ==> chain[k - 1].next == obj
    requires obj.next == if k < |chain| then chain[k] else null
    ensures Chained(chain[..k] + [obj] + chain[k..])
  {
    var s := chain[..k] + [obj] + chain[k..];
    forall i | 0 <= i < |s| ensures s[i].next == Follower(s, i) {
      if i < k {
        assert s[i] == chain[i];
      } else if i > k {
        assert s[i] == chain[i - 1];
        assert Follower(s, i) == Follower(chain, i - 1);
      }
    }
  }

  lemma EntriesInsert(chain: seq<TickerEvent>, k: nat, obj: TickerEvent)
    requires k <= |chain|
    ensures Entries(chain[..k] + [obj] + chain[k..])
         == Entries(chain)[..k] + [Entry(obj, obj.timestamp, obj.id)] + Entries(chain)[k..]
  {
  }

  /** Bridging over place `k` leaves a chain without it. */
  lemma ChainRemove(chain: seq<TickerEvent>, k: nat)
    requires k < |chain|
    requires forall i, j :: 0 <= i < j < |chain| ==> chain[i] != chain[j]
    requires forall i :: 0 <= i < |chain| && i != k - 1 ==> chain[i].next == Follower(chain, i)
    requires k > 0 ==> chain[k - 1].next == Follower(chain, k)
    ensures Chained(chain[..k] + chain[k + 1..])
  {
    var s := chain[..k] + chain[k + 1..];
    forall i | 0 <= i < |s| ensures s[i].next == Follower(s, i) {
      if i < k {
        assert s[i] == chain[i];
      } else {
        assert s[i] == chain[i + 1];
        assert Follower(s, i) == Follower(chain, i + 1);
      }
    }
  }

  lemma EntriesRemove(chain: seq<TickerEvent>, k: nat)
    requires k < |chain| && Chained(chain)
    ensures Entries(chain[..k] + chain[k + 1..]) == Removed(Entries(chain), chain[k])
  {
    ChainDistinct(chain);
    RemovedAt(Entries(chain), k);
  }

  predicate Sorted(s: seq<Entry>) {
    forall i, j :: 0 <= i < j < |s| ==> s[i].timestamp <= s[j].timestamp
  }

  predicate Distinct(s: seq<Entry>) {
    forall i, j :: 0 <= i < j < |s| ==> s[i].node != s[j].node
  }

  ghost predicate Queued(s: seq<Entry>, node: TickerEvent) {
    exists i :: 0 <= i < |s| && s[i].node == node
  }

  /** Behind every entry that is due no later. */
  function Place(s: seq<Entry>, timestamp: nat): (k: nat)
    ensures k <= |s|
  {
    if s == [] || timestamp < s[0].timestamp then 0 else 1 + Place(s[1..], timestamp)
  }

  lemma ChainDistinct(nodes: seq<TickerEvent>)
    requires Chained(nodes)
    ensures Distinct(Entries(nodes))
  {
  }

  lemma NotQueued(nodes: seq<TickerEvent>, obj: TickerEvent)
    ensures Queued(Entries(nodes), obj) <==> obj in nodes
  {
    forall i | 0 <= i < |nodes| ensures Entries(nodes)[i].node == nodes[i] {
    }
  }

  function Inserted(s: seq<Entry>, e: Entry): seq<Entry> {
    var k := Place(s, e.timestamp);
    s[..k] + [e] + s[k..]
  }

  function Removed(s: seq<Entry>, node: TickerEvent): seq<Entry> {
    if s == [] then [] else if s[0].node == node then s[1..] else [s[0]] + Removed(s[1..], node)
  }

  /** An insertion behind the first entry and the removal of another one leave the first entry. */
  lemma FirstStays(s: seq<Entry>, e: Entry, node: TickerEvent)
    requires s != []
    ensures Place(s, e.timestamp) > 0 ==> Inserted(s, e)[0] == s[0]
    ensures s[0].node != node ==> Removed(s, node) != [] && Removed(s, node)[0] == s[0]
  {
  }

  /** The place is after all entries due no later and before all entries due later: insertion is stable. */
  lemma {:induction false} PlaceSplits(s: seq<Entry>, timestamp: nat)
    requires Sorted(s)
    ensures forall i :: 0 <= i < Place(s, timestamp) ==> s[i].timestamp <= timestamp
    ensures forall i :: Place(s, timestamp) <= i < |s| ==> timestamp < s[i].timestamp
  {
    if s != [] && s[0].timestamp <= timestamp {
      PlaceSplits(s[1..], timestamp);
      forall i | 0 <= i < Place(s, timestamp) ensures s[i].timestamp <= timestamp {
        if i > 0 {
          assert s[i] == s[1..][i - 1];
        }
      }
      forall i | Place(s, timestamp) <= i < |s| ensures timestamp < s[i].timestamp {
        assert s[i] == s[1..][i - 1];
      }
    }
  }

  lemma {:induction false} PlaceUnique(s: seq<Entry>, timestamp: nat, k: nat)
    requires k <= |s|
    requires forall i :: 0 <= i < k ==> s[i].timestamp <= timestamp
    requires k < |s| ==> timestamp < s[k].timestamp
    ensures Place(s, timestamp) == k
  {
    if k > 0 {
      forall i | 0 <= i < k - 1 ensures s[1..][i].timestamp <= timestamp {
        assert s[1..][i] == s[i + 1];
      }
      PlaceUnique(s[1..], timestamp, k - 1);
    }
  }

  /** Insertion of an unlinked node keeps the queue sorted and duplicate-free. */
  lemma InsertedSorted(s: seq<Entry>, e: Entry)
    requires Sorted(s) && Distinct(s) && !Queued(s, e.node)
    ensures Sorted(Inserted(s, e)) && Distinct(Inserted(s, e)) && Queued(Inserted(s, e), e.node)
  {
    PlaceSplits(s, e.timestamp);
    assert Inserted(s, e)[Place(s, e.timestamp)] == e;
  }

  /** Removal deletes exactly that node, or nothing. */
  lemma {:induction false} RemovedExact(s: seq<Entry>, node: TickerEvent)
    requires Distinct(s)
    ensures Removed(s, node) == if Queued(s, node) then Without(s, node) else s
    ensures !Queued(Removed(s, node), node)
    ensures Sorted(s) ==> Sorted(Removed(s, node))
    ensures Distinct(Removed(s, node))
  {
    if Queued(s, node) {
      var k :| 0 <= k < |s| && s[k].node == node;
      RemovedAt(s, k);
      WithoutAt(s, k);
      RemoveIndex(s, k);
    } else {
      RemovedMissing(s, node);
    }
  }

  /** All entries of other nodes, in order. */
  function Without(s: seq<Entry>, node: TickerEvent): seq<Entry> {
    if s == [] then []
    else if s[|s| - 1].node == node then Without(s[..|s| - 1], node)
    else Without(s[..|s| - 1], node) + [s[|s| - 1]]
  }

  lemma RemoveIndex(s: seq<Entry>, k: nat)
    requires Distinct(s) && k < |s|
    ensures var r := s[..k] + s[k + 1..];
      !Queued(r, s[k].node) && (Sorted(s) ==> Sorted(r)) && Distinct(r)
  {
    var r := s[..k] + s[k + 1..];
    forall i | 0 <= i < |r| ensures r[i].node != s[k].node {
      assert r[i] == if i < k then s[i] else s[i + 1];
    }
  }

  lemma {:induction false} RemovedAt(s: seq<Entry>, k: nat)
    requires Distinct(s) && k < |s|
    ensures Removed(s, s[k].node) == s[..k] + s[k + 1..]
  {
    if k > 0 {
      assert s[0].node != s[k].node;
      assert s[1..][k - 1] == s[k];
      RemovedAt(s[1..], k - 1);
      assert [s[0]] + (s[1..][..k - 1] + s[1..][k..]) == s[..k] + s[k + 1..];
    }
  }

  lemma {:induction false} RemovedMissing(s: seq<Entry>, node: TickerEvent)
    requires !Queued(s, node)
    ensures Removed(s, node) == s
  {
    if s != [] {
      assert s[0].node != node;
      forall i | 0 <= i < |s[1..]| ensures s[1..][i].node != node {
        assert s[1..][i] == s[i + 1];
      }
      RemovedMissing(s[1..], node);
    }
  }

  lemma {:induction false} WithoutMissing(s: seq<Entry>, node: TickerEvent)
    requires forall i :: 0 <= i < |s| ==> s[i].node != node
    ensures Without(s, node) == s
  {
    if s != [] {
      WithoutMissing(s[..|s| - 1], node);
      assert s == s[..|s| - 1] + [s[|s| - 1]];
    }
  }

  lemma {:induction false} WithoutAt(s: seq<Entry>, k: nat)
    requires Distinct(s) && k < |s|
    ensures Without(s, s[k].node) == s[..k] + s[k + 1..]
    decreases |s|
  {
    var n := |s| - 1;
    if k == n {
      WithoutMissing(s[..n], s[k].node);
      assert s[..k] + s[k + 1..] == s[..n];
    } else {
      assert s[..n][k] == s[k];
      WithoutAt(s[..n], k);
      assert s[..n][..k] + s[..n][k + 1..] + [s[n]] == s[..k] + s[k + 1..];
    }
  }

  // ---------------------------------------------------------------- a dispatch run

  /** What one pass of the interrupt handler does to the queue, in order. */
  datatype Action =
    | Dispatched(entry: Entry, presentTime: nat)
    | Added(entry: Entry)
    | Dropped(node: TickerEvent)

  function After(s: seq<Entry>, a: Action): seq<Entry> {
    match a
    case Dispatched(_, _) => if s == [] then [] else s[1..]
    case Added(entry) => Inserted(s, entry)
    case Dropped(node) => Removed(s, node)
  }

  /** Only the head is dispatched, and only when due; only nodes that are not queued are inserted. */
  ghost predicate Allowed(s: seq<Entry>, a: Action) {
    match a
    case Dispatched(entry, presentTime) => s != [] && s[0] == entry && entry.timestamp <= presentTime
    case Added(entry) => !Queued(s, entry.node)
    case Dropped(_) => true
  }

  function Replay(s: seq<Entry>, trace: seq<Action>): seq<Entry>
    decreases |trace|
  {
    if trace == [] then s else After(Replay(s, trace[..|trace| - 1]), trace[|trace| - 1])
  }

  ghost predicate Legal(s: seq<Entry>, trace: seq<Action>)
    decreases |trace|
  {
    trace == [] ||
    var init := trace[..|trace| - 1];
    Legal(s, init) && Allowed(Replay(s, init), trace[|trace| - 1])
  }

  lemma ReplayNone(s: seq<Entry>)
    ensures Replay(s, []) == s && Legal(s, [])
  {
  }

  lemma ReplayOne(s: seq<Entry>, trace: seq<Action>, a: Action)
    ensures Replay(s, trace + [a]) == After(Replay(s, trace), a)
    ensures Legal(s, trace + [a]) <==> Legal(s, trace) && Allowed(Replay(s, trace), a)
  {
    assert (trace + [a])[..|trace|] == trace;
  }

  function Dispatches(trace: seq<Action>): seq<Entry> {
    if trace == [] then []
    else
      var a := trace[|trace| - 1];
      Dispatches(trace[..|trace| - 1]) + (if a.Dispatched? then [a.entry] else [])
  }

  predicate OnlyDispatches(trace: seq<Action>) {
    forall i :: 0 <= i < |trace| ==> trace[i].Dispatched?
  }

  /** No event was dispatched later than `t`. */
  predicate DispatchedBy(trace: seq<Action>, t: nat) {
    forall i :: 0 <= i < |trace| && trace[i].Dispatched? ==> trace[i].presentTime <= t
  }

  lemma DispatchedLater(trace: seq<Action>, t: nat, u: nat)
    requires DispatchedBy(trace, t) && t <= u
    ensures DispatchedBy(trace, u)
  {
  }

  /** Nothing in the queue is due at `t`. */
  predicate AllAfter(s: seq<Entry>, t: nat) {
    forall i :: 0 <= i < |s| ==> t < s[i].timestamp
  }

  lemma AllAfterEarlier(s: seq<Entry>, t: nat, u: nat)
    requires AllAfter(s, u) && t <= u
    ensures AllAfter(s, t)
  {
  }

  lemma SortedAfter(s: seq<Entry>, t: nat)
    requires Sorted(s) && (s != [] ==> t < s[0].timestamp)
    ensures AllAfter(s, t)
  {
  }

  /** When handlers leave the queue alone, dispatching takes a prefix of it, in order, and leaves the rest. */
  lemma {:induction false} DispatchIsPrefix(s: seq<Entry>, trace: seq<Action>)
    requires Legal(s, trace) && OnlyDispatches(trace)
    ensures s == Dispatches(trace) + Replay(s, trace)
    decreases |trace|
  {
    if trace != [] {
      var n := |trace| - 1;
      var u := Replay(s, trace[..n]);
      DispatchIsPrefix(s, trace[..n]);
      assert u == [trace[n].entry] + u[1..];
    }
  }

  /** Whatever handlers do, every dispatched event was due when it was dispatched. */
  lemma {:induction false} DispatchedWereDue(s: seq<Entry>, trace: seq<Action>)
    requires Legal(s, trace)
    ensures forall i :: 0 <= i < |trace| && trace[i].Dispatched? ==> trace[i].entry.timestamp <= trace[i].presentTime
    decreases |trace|
  {
    if trace != [] {
      var n := |trace| - 1;
      DispatchedWereDue(s, trace[..n]);
      forall i | 0 <= i < |trace| && trace[i].Dispatched?
        ensures trace[i].entry.timestamp <= trace[i].presentTime
      {
        if i < n {
          assert trace[i] == trace[..n][i];
        }
      }
    }
  }

  lemma {:induction false} ReplayKeepsOrder(s: seq<Entry>, trace: seq<Action>)
    requires Sorted(s) && Distinct(s) && Legal(s, trace)
    ensures Sorted(Replay(s, trace)) && Distinct(Replay(s, trace))
    decreases |trace|
  {
    if trace != [] {
      var n := |trace| - 1;
      var u := Replay(s, trace[..n]);
      ReplayKeepsOrder(s, trace[..n]);
      match trace[n]
      case Dispatched(_, _) => assert Sorted(u[1..]) && Distinct(u[1..]);
      case Added(entry) => InsertedSorted(u, entry);
      case Dropped(node) => RemovedExact(u, node);
    }
  }

  lemma {:induction false} ReplayMore(s: seq<Entry>, a: seq<Action>, b: seq<Action>)
    ensures Replay(s, a + b) == Replay(Replay(s, a), b)
    ensures Legal(s, a + b) <==> Legal(s, a) && Legal(Replay(s, a), b)
    decreases |b|
  {
    if b == [] {
      assert a + b == a;
    } else {
      var n := |b| - 1;
      assert (a + b)[..|a + b| - 1] == a + b[..n];
      ReplayMore(s, a, b[..n]);
    }
  }

  // ---------------------------------------------------------------- conservation

  function AddedOf(trace: seq<Action>): multiset<Entry> {
    if trace == [] then multiset{}
    else
      var a := trace[|trace| - 1];
      AddedOf(trace[..|trace| - 1]) + (if a.Added? then multiset{a.entry} else multiset{})
  }

  function DispatchedOf(trace: seq<Action>): multiset<Entry> {
    if trace == [] then multiset{}
    else
      var a := trace[|trace| - 1];
      DispatchedOf(trace[..|trace| - 1]) + (if a.Dispatched? then multiset{a.entry} else multiset{})
  }

  /** The entries of the queue that belong to `node`. */
  function EntriesOf(s: seq<Entry>, node: TickerEvent): multiset<Entry> {
    if s == [] then multiset{}
    else EntriesOf(s[..|s| - 1], node) + (if s[|s| - 1].node == node then multiset{s[|s| - 1]} else multiset{})
  }

  /** The entries that removals took out of the queue. */
  function DroppedOf(s: seq<Entry>, trace: seq<Action>): multiset<Entry>
    decreases |trace|
  {
    if trace == [] then multiset{}
    else
      var init, a := trace[..|trace| - 1], trace[|trace| - 1];
      DroppedOf(s, init) + (if a.Dropped? then EntriesOf(Replay(s, init), a.node) else multiset{})
  }

  lemma {:induction false} WithoutKeeps(s: seq<Entry>, node: TickerEvent)
    ensures multiset(s) == multiset(Without(s, node)) + EntriesOf(s, node)
  {
    if s != [] {
      var n := |s| - 1;
      WithoutKeeps(s[..n], node);
      assert s == s[..n] + [s[n]];
    }
  }

  lemma {:induction false} NoEntries(s: seq<Entry>, node: TickerEvent)
    requires forall i :: 0 <= i < |s| ==> s[i].node != node
    ensures EntriesOf(s, node) == multiset{}
  {
    if s != [] {
      NoEntries(s[..|s| - 1], node);
    }
  }

  lemma RemovalKeeps(s: seq<Entry>, node: TickerEvent)
    requires Distinct(s)
    ensures multiset(s) == multiset(Removed(s, node)) + EntriesOf(s, node)
  {
    hide EntriesOf;
    hide Without;
    hide Removed;
    RemovedExact(s, node);
    if Queued(s, node) {
      WithoutKeeps(s, node);
    } else {
      NoEntries(s, node);
    }
  }

  lemma InsertionKeeps(s: seq<Entry>, e: Entry)
    ensures multiset(Inserted(s, e)) == multiset(s) + multiset{e}
  {
    var k := Place(s, e.timestamp);
    assert s == s[..k] + s[k..];
  }

  /** What one action takes from the queue and adds to it. */
  lemma ActionKeeps(s: seq<Entry>, a: Action)
    requires Sorted(s) && Distinct(s) && Allowed(s, a)
    ensures multiset(s) + (if a.Added? then multiset{a.entry} else multiset{})
         == multiset(After(s, a)) + (if a.Dispatched? then multiset{a.entry} else multiset{})
            + (if a.Dropped? then EntriesOf(s, a.node) else multiset{})
  {
    hide Sorted;
    hide Removed;
    hide Inserted;
    hide EntriesOf;
    match a
    case Dispatched(_, _) => assert s == [s[0]] + s[1..];
    case Added(entry) => InsertionKeeps(s, entry);
    case Dropped(node) => RemovalKeeps(s, node);
  }

  lemma Balance<T>(s: multiset<T>, added: multiset<T>, u: multiset<T>, gone: multiset<T>, dropped: multiset<T>,
                   more: multiset<T>, v: multiset<T>, goes: multiset<T>, drops: multiset<T>)
    requires s + added == u + gone + dropped && u + more == v + goes + drops
    ensures s + (added + more) == v + (gone + goes) + (dropped + drops)
  {
    assert s + (added + more) == s + added + more == u + more + gone + dropped;
  }

  /** No event is lost or doubled: queued or inserted before, it is queued, dispatched or removed after. */
  lemma {:induction false} EventsKept(s: seq<Entry>, trace: seq<Action>)
    requires Sorted(s) && Distinct(s) && Legal(s, trace)
    ensures multiset(s) + AddedOf(trace)
         == multiset(Replay(s, trace)) + DispatchedOf(trace) + DroppedOf(s, trace)
    decreases |trace|
  {
    hide Sorted;
    hide Distinct;
    hide After;
    hide Allowed;
    hide EntriesOf;
    if trace != [] {
      var n := |trace| - 1;
      EventsKept(s, trace[..n]);
      ReplayKeepsOrder(s, trace[..n]);
      var u, a := Replay(s, trace[..n]), trace[n];
      ActionKeeps(u, a);
      Balance(multiset(s), AddedOf(trace[..n]), multiset(u), DispatchedOf(trace[..n]), DroppedOf(s, trace[..n]),
              if a.Added? then multiset{a.entry} else multiset{}, multiset(After(u, a)),
              if a.Dispatched? then multiset{a.entry} else multiset{},
              if a.Dropped? then EntriesOf(u, a.node) else multiset{});
    }
  }
}
