/** The dynamic table (sections 2.3, 4 and 6.3 of RFC 7541) and the processing of field blocks. */
module HpackState {
  import opened Wire
  import HpackInt
  import opened HpackString
  import opened HpackField
  import opened StaticTable

  function EntrySize(h: Header): nat {
    |h.name| + |h.value| + 32
  }

  function TableSize(table: seq<Header>): (r: nat)
    ensures 32 * |table| <= r
  {
    if table == [] then 0 else EntrySize(table[0]) + TableSize(table[1..])
  }

  lemma {:induction false} TableSizeConcat(a: seq<Header>, b: seq<Header>)
    ensures TableSize(a + b) == TableSize(a) + TableSize(b)
  {
    if a == [] {
      assert a + b == b;
    } else {
      assert (a + b)[1..] == a[1..] + b;
      TableSizeConcat(a[1..], b);
    }
  }

  /** A longer prefix is at least 32 octets larger for each entry. */
  lemma PrefixSizeGrows(t: seq<Header>, m: nat, n: nat)
    requires m <= n <= |t|
    ensures TableSize(t[..m]) + 32 * (n - m) <= TableSize(t[..n])
  {
    assert t[..n] == t[..m] + t[m..n];
    TableSizeConcat(t[..m], t[m..n]);
  }

  // The table as a value.

  datatype State = State(capacity: nat, max: nat, table: seq<Header>) {
    /** What the source asserts of a state it constructs. */
    predicate Sound() {
      TableSize(table) <= capacity <= max
    }
  }

  /** Drop the oldest entries until the table fits. */
  function Evict(table: seq<Header>, capacity: nat): (r: seq<Header>)
    ensures r <= table
    ensures TableSize(r) <= capacity
  {
    if TableSize(table) <= capacity then table else Evict(table[..|table| - 1], capacity)
  }

  /** Evict keeps an entry exactly when the entry and all newer ones fit. */
  lemma {:induction false} EvictKeeps(table: seq<Header>, capacity: nat, i: nat)
    requires i < |table|
    ensures i < |Evict(table, capacity)| <==> TableSize(table[..i + 1]) <= capacity
    decreases |table|
  {
    if TableSize(table) <= capacity {
      PrefixSizeGrows(table, i + 1, |table|);
      assert table[..|table|] == table;
    } else if i == |table| - 1 {
      assert table[..i + 1] == table;
    } else {
      EvictKeeps(table[..|table| - 1], capacity, i);
      assert table[..|table| - 1][..i + 1] == table[..i + 1];
    }
  }

  function Insert(s: State, h: Header): State {
    s.(table := Evict([h] + s.table, s.capacity))
  }

  function Resize(s: State, capacity: nat): State {
    s.(capacity := capacity, table := Evict(s.table, capacity))
  }

  /** get_header: static entries from 1, then the dynamic table, newest first; None where it asserts. */
  function Lookup(s: State, index: nat): (r: Option<Header>) {
    if index == 0 then None
    else if index <= STATIC_ENTRIES then Some(StaticHeader(index - 1))
    else if index - 1 - STATIC_ENTRIES < |s.table| then Some(s.table[index - 1 - STATIC_ENTRIES])
    else None
  }

  datatype Result = Result(state: State, headers: Option<seq<Header>>)

  /** The effect of one field: the state it leaves, and the header it yields, if any; None where the source asserts. */
  function ProcessField(s: State, f: Field): (r: Result) {
    match f
    case Indexed(index) =>
      var h := Lookup(s, index.val);
      Result(s, if h.None? then None else Some([h.value]))
    case Literal(key, val, prop) =>
      var h := Header(key.data, val.data);
      Result(if prop.Cached? then Insert(s, h) else s, Some([h]))
    case Partial(index, val, prop) =>
      var named := Lookup(s, index.val);
      if named.None? then Result(s, None)
      else
        Result(if prop.Cached? then Insert(s, Header(Lookup(s, index.val).value.name, val.data)) else s,
               Some([Header(named.value.name, val.data)]))
    case SizeUpdate(size) =>
      var resized := Resize(s, size.val);
      Result(resized, if resized.Sound() then Some([]) else None)
  }

  /** The effect of a field block; it stops at the first failed assertion. */
  function ProcessBlock(s: State, fields: seq<Field>): (r: Result)
    decreases |fields|
  {
    if fields == [] then Result(s, Some([]))
    else
      var first := ProcessField(s, fields[0]);
      if first.headers.None? then first
      else
        var others := ProcessBlock(first.state, fields[1..]);
        if others.headers.None? then others
        else Result(others.state, Some(first.headers.value + others.headers.value))
  }

  // The table as the source keeps it.

  class HpackTable {
    var tableCapacity: nat
    var maxTableCapacity: nat
    var dynamicTable: seq<Header>

    ghost function Value(): State
      reads this
    {
      State(tableCapacity, maxTableCapacity, dynamicTable)
    }

    constructor (capacity: nat := 4096, max: nat := 4096, table: seq<Header> := [])
      requires State(capacity, max, table).Sound()
      ensures Value() == State(capacity, max, table)
    {
      tableCapacity, maxTableCapacity, dynamicTable := capacity, max, table;
    }

    method MaybeEvict()
      modifies this`dynamicTable
      ensures dynamicTable == Evict(old(dynamicTable), tableCapacity)
    {
      while TableSize(dynamicTable) > tableCapacity
        invariant Evict(dynamicTable, tableCapacity) == Evict(old(dynamicTable), tableCapacity)
        decreases |dynamicTable|
      {
        dynamicTable := dynamicTable[..|dynamicTable| - 1];
      }
    }

    method AddHeader(h: Header)
      modifies this`dynamicTable
      ensures Value() == Insert(old(Value()), h)
    {
      dynamicTable := [h] + dynamicTable;
      MaybeEvict();
    }

    method GetHeader(index: nat) returns (r: Option<Header>)
      ensures r == Lookup(Value(), index)
    {
      if index == 0 {
        return None;
      }
      var i := index - 1;
      if i < STATIC_ENTRIES {
        return Some(StaticHeader(i));
      }
      i := i - STATIC_ENTRIES;
      if i >= |dynamicTable| {
        return None;
      }
      return Some(dynamicTable[i]);
    }

    /** update_table_capacity: the new capacity is in force even when the final assertion fails. */
    method UpdateCapacity(val: nat) returns (ok: bool)
      modifies this`tableCapacity, this`dynamicTable
      ensures Value() == Resize(old(Value()), val)
      ensures ok <==> val <= maxTableCapacity
      ensures ok == Value().Sound()
    {
      tableCapacity := val;
      MaybeEvict();
      ok := TableSize(dynamicTable) <= tableCapacity <= maxTableCapacity;
    }

    /** One round of the loop of process_field_block. */
    method Process(f: Field) returns (r: Option<seq<Header>>)
      modifies this
      ensures Result(Value(), r) == ProcessField(old(Value()), f)
    {
      match f {
        case Indexed(index) =>
          var h := GetHeader(index.val);
          r := if h.None? then None else Some([h.value]);
        case Literal(key, val, prop) =>
          r := Some([Header(key.data, val.data)]);
          if prop.Cached? {
            AddHeader(Header(key.data, val.data));
          }
        case Partial(index, val, prop) =>
          var named := GetHeader(index.val);
          if named.None? {
            return None;
          }
          r := Some([Header(named.value.name, val.data)]);
          if prop.Cached? {
            var again := GetHeader(index.val);
            AddHeader(Header(again.value.name, val.data));
          }
        case SizeUpdate(size) =>
          var ok := UpdateCapacity(size.val);
          r := if ok then Some([]) else None;
      }
    }

    method ProcessFieldBlock(fields: seq<Field>) returns (r: Option<seq<Header>>)
      modifies this
      ensures Result(Value(), r) == ProcessBlock(old(Value()), fields)
    {
      var result: seq<Header> := [];
      assert fields[0..] == fields;
      PrependNothing(ProcessBlock(Value(), fields));
      for i := 0 to |fields|
        invariant ProcessBlock(old(Value()), fields) == Prepend(result, ProcessBlock(Value(), fields[i..]))
      {
        ghost var todo := fields[i..];
        assert todo[1..] == fields[i + 1..];
        var headers := Process(fields[i]);
        if headers.None? {
          return None;
        }
        PrependTwice(result, headers.value, ProcessBlock(Value(), fields[i + 1..]));
        result := result + headers.value;
      }
      assert result + [] == result;
      return Some(result);
    }
  }

  ghost function Prepend(headers: seq<Header>, r: Result): Result {
    Result(r.state, if r.headers.None? then None else Some(headers + r.headers.value))
  }

  lemma PrependNothing(r: Result)
    ensures Prepend([], r) == r
  {
    if r.headers.Some? {
      assert [] + r.headers.value == r.headers.value;
    }
  }

  lemma PrependTwice(a: seq<Header>, b: seq<Header>, r: Result)
    ensures Prepend(a, Prepend(b, r)) == Prepend(a + b, r)
  {
    if r.headers.Some? {
      assert a + (b + r.headers.value) == (a + b) + r.headers.value;
    }
  }

  // What one operation keeps.

  /** Section 4.4 of RFC 7541: make room first, then add the entry if it fits at all. */
  function StandardInsert(s: State, h: Header): State {
    s.(table := if EntrySize(h) > s.capacity then [] else [h] + Evict(s.table, s.capacity - EntrySize(h)))
  }

  lemma {:induction false} EvictUnder(h: Header, table: seq<Header>, capacity: nat)
    ensures Evict([h] + table, capacity)
         == if EntrySize(h) > capacity then [] else [h] + Evict(table, capacity - EntrySize(h))
    decreases |table|
  {
    var all := [h] + table;
    assert all[1..] == table;
    if TableSize(all) > capacity {
      if table == [] {
        assert all[..|all| - 1] == [];
      } else {
        assert all[..|all| - 1] == [h] + table[..|table| - 1];
        EvictUnder(h, table[..|table| - 1], capacity);
      }
    }
  }

  /** Adding and then evicting leaves the table that the standard's order leaves,
      also when the entry is larger than the table and empties it. */
  lemma InsertIsStandard(s: State, h: Header)
    ensures Insert(s, h) == StandardInsert(s, h)
  {
    EvictUnder(h, s.table, s.capacity);
  }

  /** An insertion moves every surviving entry up by one index and no static index at all. */
  lemma InsertShifts(s: State, h: Header, index: nat)
    ensures index <= STATIC_ENTRIES ==> Lookup(Insert(s, h), index) == Lookup(s, index)
    ensures index > STATIC_ENTRIES && Lookup(Insert(s, h), index + 1).Some? ==>
              Lookup(Insert(s, h), index + 1) == Lookup(s, index)
    ensures Lookup(Insert(s, h), STATIC_ENTRIES + 1) == if EntrySize(h) <= s.capacity then Some(h) else None
  {
    InsertIsStandard(s, h);
  }

  /** A cached partial field takes its name from the table before its own insertion. */
  lemma PartialNameIsOld(s: State, f: Field)
    requires f.Partial? && Lookup(s, f.index.val).Some?
    ensures var h := Header(Lookup(s, f.index.val).value.name, f.val.data);
            && ProcessField(s, f).headers == Some([h])
            && ProcessField(s, f).state == if f.prop.Cached? then StandardInsert(s, h) else s
  {
    InsertIsStandard(s, Header(Lookup(s, f.index.val).value.name, f.val.data));
  }

  /** Every field keeps the table within the capacity in force, whatever happens; the state stays sound
      exactly when no size update asks for more than the maximum. */
  lemma FieldKeepsTable(s: State, f: Field)
    requires s.Sound()
    ensures var r := ProcessField(s, f);
            && TableSize(r.state.table) <= r.state.capacity
            && 32 * |r.state.table| <= r.state.capacity
            && r.state.max == s.max
            && (r.state.Sound() <==> !(f.SizeUpdate? && f.size.val > s.max))
  {}

  /** On a new table: an update to one octet more than the maximum fails, and is in force. */
  lemma ExcessiveUpdateIsInForce()
    ensures var r := ProcessField(State(4096, 4096, []), SizeUpdate(HpackInt.PrefixInt(4097)));
            r.headers == None && r.state == State(4097, 4096, []) && !r.state.Sound()
  {}

  /** A block that is processed to its end leaves a sound state; one that is not leaves the table within its capacity. */
  lemma {:induction false} BlockKeepsTable(s: State, fields: seq<Field>)
    requires s.Sound()
    ensures var r := ProcessBlock(s, fields);
            && TableSize(r.state.table) <= r.state.capacity
            && 32 * |r.state.table| <= r.state.capacity
            && r.state.max == s.max
            && (r.headers.Some? ==> r.state.Sound())
    decreases |fields|
  {
    if fields != [] {
      var first := ProcessField(s, fields[0]);
      FieldKeepsTable(s, fields[0]);
      if first.headers.Some? {
        BlockKeepsTable(first.state, fields[1..]);
      }
    }
  }

  // Blocks.

  /** Processing a block in two pieces is processing it whole. */
  lemma {:induction false} BlockSplits(s: State, a: seq<Field>, b: seq<Field>)
    ensures ProcessBlock(s, a + b)
         == var first := ProcessBlock(s, a);
            if first.headers.None? then first else Prepend(first.headers.value, ProcessBlock(first.state, b))
    decreases |a|
  {
    if a == [] {
      assert a + b == b;
      PrependNothing(ProcessBlock(s, b));
    } else {
      assert (a + b)[1..] == a[1..] + b;
      var first := ProcessField(s, a[0]);
      if first.headers.Some? {
        BlockSplits(first.state, a[1..], b);
        var middle := ProcessBlock(first.state, a[1..]);
        if middle.headers.Some? {
          PrependTwice(first.headers.value, middle.headers.value, ProcessBlock(middle.state, b));
        }
      }
    }
  }

  lemma {:induction false} NormalBlockProcesses(s: State, fields: seq<Field>)
    ensures ProcessBlock(s, NormalBlock(fields)) == ProcessBlock(s, fields)
    decreases |fields|
  {
    if fields != [] {
      assert NormalBlock(fields)[1..] == NormalBlock(fields[1..]);
      var first := ProcessField(s, fields[0]);
      assert ProcessField(s, Normal(fields[0])) == first;
      NormalBlockProcesses(first.state, fields[1..]);
    }
  }

  /** The wire is transparent: from any state, processing what was printed and parsed again gives the
      headers and the table that the original fields give, for any mix of Huffman and raw texts. */
  lemma WireIsTransparent(code: Table, s: State, fields: seq<Field>)
    requires HpackCode(code)
    requires forall i | 0 <= i < |fields| :: Printable(code, fields[i])
    ensures BlockBytes(code, fields).Some?
    ensures var parsed := ParseBlock(code, BlockBytes(code, fields).value);
            parsed.Some? && ProcessBlock(s, parsed.value) == ProcessBlock(s, fields)
  {
    BlockRoundTrip(code, fields);
    NormalBlockProcesses(s, fields);
  }

  /** The octets of two blocks, joined on the wire, decode like the first block and then the second. */
  lemma WireSplits(code: Table, s: State, a: seq<Field>, b: seq<Field>)
    requires HpackCode(code)
    requires forall i | 0 <= i < |a| :: Printable(code, a[i])
    requires forall i | 0 <= i < |b| :: Printable(code, b[i])
    ensures BlockBytes(code, a).Some? && BlockBytes(code, b).Some?
    ensures var parsed := ParseBlock(code, BlockBytes(code, a).value + BlockBytes(code, b).value);
            && parsed.Some?
            && ProcessBlock(s, parsed.value)
               == var first := ProcessBlock(s, a);
                  if first.headers.None? then first else Prepend(first.headers.value, ProcessBlock(first.state, b))
  {
    BlockRoundTrip(code, b);
    BlockThenRest(code, a, BlockBytes(code, b).value);
    BlockSplits(s, NormalBlock(a), NormalBlock(b));
    NormalBlockProcesses(s, a);
    NormalBlockProcesses(ProcessBlock(s, a).state, b);
  }
}
