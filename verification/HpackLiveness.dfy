/** Which entries are in the dynamic table after any run of insertions and size updates. */
module HpackLiveness {
  import opened HpackField
  import opened HpackState
  import opened StaticTable

  datatype Event = Added(header: Header) | Resized(capacity: nat)

  function Step(s: State, e: Event): State {
    match e
    case Added(h) => Insert(s, h)
    case Resized(capacity) => Resize(s, capacity)
  }

  /** A run of table operations. */
  function Run(s: State, events: seq<Event>): State {
    if events == [] then s else Step(Run(s, events[..|events| - 1]), events[|events| - 1])
  }

  /** All entries ever inserted, newest first, and behind them those that were there at the start. */
  function History(s: State, events: seq<Event>): (r: seq<Header>) {
    if events == [] then s.table
    else
      var earlier := History(s, events[..|events| - 1]);
      match events[|events| - 1]
      case Added(h) => [h] + earlier
      case Resized(_) => earlier
  }

  function CapacityAfter(s: State, events: seq<Event>): nat {
    if events == [] then s.capacity
    else
      match events[|events| - 1]
      case Added(_) => CapacityAfter(s, events[..|events| - 1])
      case Resized(capacity) => capacity
  }

  /** The size of entry number `e` (counted from the oldest) plus the sizes of all later insertions. */
  function SizeSince(history: seq<Header>, e: nat): nat
    requires e < |history|
  {
    TableSize(history[..|history| - e])
  }

  /** After the first `t` events, entry `e` and the later ones fit the capacity then in force. */
  ghost predicate FitsAt(s: State, events: seq<Event>, e: nat, t: nat)
    requires t <= |events|
  {
    e < |History(s, events[..t])| ==> SizeSince(History(s, events[..t]), e) <= CapacityAfter(s, events[..t])
  }

  ghost predicate AlwaysFits(s: State, events: seq<Event>, e: nat) {
    forall t | 0 <= t <= |events| :: FitsAt(s, events, e, t)
  }

  lemma FitsOneMore(s: State, events: seq<Event>, e: nat)
    requires events != []
    ensures AlwaysFits(s, events, e)
       <==> AlwaysFits(s, events[..|events| - 1], e) && FitsAt(s, events, e, |events|)
  {
    var earlier := events[..|events| - 1];
    assert forall t | 0 <= t < |events| :: earlier[..t] == events[..t];
    assert forall t | 0 <= t < |events| :: FitsAt(s, events, e, t) <==> FitsAt(s, earlier, e, t);
  }

  /** The table just before the eviction that ends the last event. */
  function Unevicted(last: Event, before: seq<Header>): seq<Header> {
    if last.Added? then [last.header] + before else before
  }

  lemma NewestSurvive(table: seq<Header>, history: seq<Header>, capacity: nat, i: nat)
    requires table <= history && i < |history|
    ensures i < |Evict(table, capacity)| <==> i < |table| && TableSize(history[..i + 1]) <= capacity
  {
    if i < |table| {
      EvictKeeps(table, capacity, i);
      assert table[..i + 1] == history[..i + 1];
    }
  }

  /** One event: an entry survives exactly when it was there (or is new) and fits now. */
  lemma EntryAfterStep(s: State, events: seq<Event>, before: seq<Header>, e: nat)
    requires events != [] && e < |History(s, events)|
    requires var earlier := events[..|events| - 1];
             && before <= History(s, earlier)
             && (e < |History(s, earlier)| ==>
                   (|History(s, earlier)| - 1 - e < |before| <==> AlwaysFits(s, earlier, e)))
    ensures var table := Unevicted(events[|events| - 1], before);
            |History(s, events)| - 1 - e < |Evict(table, CapacityAfter(s, events))| <==> AlwaysFits(s, events, e)
  {
    var earlier, history := events[..|events| - 1], History(s, events);
    var table, capacity := Unevicted(events[|events| - 1], before), CapacityAfter(s, events);
    var i := |history| - 1 - e;
    FitsOneMore(s, events, e);
    assert events[..|events|] == events;
    if e >= |History(s, earlier)| {
      NotYetInserted(s, earlier, e);
    }
    NewestSurvive(table, history, capacity, i);
  }

  lemma StartingEntriesFit(s: State, e: nat)
    requires TableSize(s.table) <= s.capacity
    ensures e < |s.table| ==> AlwaysFits(s, [], e)
  {
    if e < |s.table| {
      PrefixSizeGrows(s.table, |s.table| - e, |s.table|);
      assert s.table[..|s.table|] == s.table;
    }
  }

  /** The table is the newest part of the history, and an entry is in it if and only if, at every
      moment since its insertion (or since the start), it and all later entries fitted the capacity in force. */
  lemma {:induction false} ExactLiveness(s: State, events: seq<Event>)
    requires TableSize(s.table) <= s.capacity
    ensures var after, history := Run(s, events), History(s, events);
            && after.capacity == CapacityAfter(s, events)
            && after.max == s.max
            && after.table <= history
            && forall e | 0 <= e < |history| ::
                 |history| - 1 - e < |after.table| <==> AlwaysFits(s, events, e)
    decreases |events|
  {
    if events == [] {
      forall e | 0 <= e < |s.table|
        ensures AlwaysFits(s, events, e)
      {
        StartingEntriesFit(s, e);
      }
    } else {
      var earlier, last := events[..|events| - 1], events[|events| - 1];
      ExactLiveness(s, earlier);
      var before := Run(s, earlier).table;
      assert Run(s, events).table == Evict(Unevicted(last, before), CapacityAfter(s, events));
      assert Unevicted(last, before) <= History(s, events);
      forall e | 0 <= e < |History(s, events)|
        ensures |History(s, events)| - 1 - e < |Run(s, events).table| <==> AlwaysFits(s, events, e)
      {
        EntryAfterStep(s, events, before, e);
      }
    }
  }

  lemma NotYetInserted(s: State, events: seq<Event>, e: nat)
    requires e >= |History(s, events)|
    ensures AlwaysFits(s, events, e)
  {
    forall t | 0 <= t <= |events|
      ensures FitsAt(s, events, e, t)
    {
      HistoryGrows(s, events, t);
    }
  }

  lemma {:induction false} HistoryGrows(s: State, events: seq<Event>, t: nat)
    requires t <= |events|
    ensures |History(s, events[..t])| <= |History(s, events)|
    decreases |events|
  {
    if t == |events| {
      assert events[..t] == events;
    } else {
      HistoryGrows(s, events[..|events| - 1], t);
      assert events[..|events| - 1][..t] == events[..t];
    }
  }

  // Field blocks are runs.

  /** The events a field block causes, in order, up to the first failed assertion. */
  function EventsOf(s: State, fields: seq<Field>): (r: seq<Event>)
    decreases |fields|
  {
    if fields == [] then []
    else
      var first := ProcessField(s, fields[0]);
      FieldEvents(s, fields[0]) + if first.headers.None? then [] else EventsOf(first.state, fields[1..])
  }

  function FieldEvents(s: State, f: Field): (r: seq<Event>)
    ensures |r| <= 1
  {
    match f
    case Indexed(_) => []
    case Literal(key, val, prop) => if prop.Cached? then [Added(Header(key.data, val.data))] else []
    case Partial(index, val, prop) =>
      var named := Lookup(s, index.val);
      if named.Some? && prop.Cached? then [Added(Header(named.value.name, val.data))] else []
    case SizeUpdate(size) => [Resized(size.val)]
  }

  lemma {:induction false} RunConcat(s: State, a: seq<Event>, b: seq<Event>)
    ensures Run(s, a + b) == Run(Run(s, a), b)
    decreases |b|
  {
    if b == [] {
      assert a + b == a;
    } else {
      assert (a + b)[..|a + b| - 1] == a + b[..|b| - 1];
      RunConcat(s, a, b[..|b| - 1]);
    }
  }

  lemma FieldIsARun(s: State, f: Field)
    ensures ProcessField(s, f).state == Run(s, FieldEvents(s, f))
  {
    var events := FieldEvents(s, f);
    if events != [] {
      assert events[..|events| - 1] == [];
    }
  }

  lemma {:induction false} BlockIsARun(s: State, fields: seq<Field>)
    ensures ProcessBlock(s, fields).state == Run(s, EventsOf(s, fields))
    decreases |fields|
  {
    if fields != [] {
      FieldIsARun(s, fields[0]);
      var first := ProcessField(s, fields[0]);
      if first.headers.None? {
        assert FieldEvents(s, fields[0]) + [] == FieldEvents(s, fields[0]);
      } else {
        BlockIsARun(first.state, fields[1..]);
        RunConcat(s, FieldEvents(s, fields[0]), EventsOf(first.state, fields[1..]));
      }
    }
  }

  function ProcessBlocks(s: State, blocks: seq<seq<Field>>): State
    decreases |blocks|
  {
    if blocks == [] then s else ProcessBlocks(ProcessBlock(s, blocks[0]).state, blocks[1..])
  }

  function EventsOfBlocks(s: State, blocks: seq<seq<Field>>): seq<Event>
    decreases |blocks|
  {
    if blocks == [] then []
    else EventsOf(s, blocks[0]) + EventsOfBlocks(ProcessBlock(s, blocks[0]).state, blocks[1..])
  }

  lemma {:induction false} BlocksAreARun(s: State, blocks: seq<seq<Field>>)
    ensures ProcessBlocks(s, blocks) == Run(s, EventsOfBlocks(s, blocks))
    decreases |blocks|
  {
    if blocks != [] {
      var next := ProcessBlock(s, blocks[0]).state;
      BlockIsARun(s, blocks[0]);
      BlocksAreARun(next, blocks[1..]);
      RunConcat(s, EventsOf(s, blocks[0]), EventsOfBlocks(next, blocks[1..]));
    }
  }

  /** After any sequence of field blocks on a connection, failed ones included, the dynamic table holds
      exactly the entries that always fitted; it never outgrows the capacity in force. */
  lemma LivenessOverConnections(s: State, blocks: seq<seq<Field>>)
    requires TableSize(s.table) <= s.capacity
    ensures var after := ProcessBlocks(s, blocks);
            var events := EventsOfBlocks(s, blocks);
            var history := History(s, events);
            && after.table <= history
            && TableSize(after.table) <= after.capacity
            && 32 * |after.table| <= after.capacity
            && forall e | 0 <= e < |history| ::
                 |history| - 1 - e < |after.table| <==> AlwaysFits(s, events, e)
  {
    BlocksAreARun(s, blocks);
    ExactLiveness(s, EventsOfBlocks(s, blocks));
    RunFits(s, EventsOfBlocks(s, blocks));
  }

  lemma RunFits(s: State, events: seq<Event>)
    requires TableSize(s.table) <= s.capacity
    ensures TableSize(Run(s, events).table) <= Run(s, events).capacity
  {}
}
